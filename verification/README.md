# A verified model of the IAP receiver and of lwIP's receive path

This project models, in Dafny, the parts of the IAP firmware in `LwIP_V1.3.2` that carry data from a wire to
where it is kept:

1. **The YMODEM receiver that programs flash** (`IAP/ymodem.c`, with `Str2Int` and `FLASH_PagesMask` of
   `IAP/common.c`). `Machine`, `Framing`, `Header`, `Flash` and `Session` give a pure account of it: the line is an
   infinite sequence of poll outcomes, flash is a map of words, and `Session.Step` is the effect of one received
   packet. `Decoding` says which bytes came for every outcome of a reception. `Receiver.Ymodem` is the code in its
   own form (two nested loops, copy loops, erase and programming loops over fields and arrays) and is proved to do
   exactly what those functions say. `Ledger`, `Replies`, `Image`, `FileImage`, `Erasing`, `Programming`, `Journal`,
   `Stopping`, `Texts`, `FirstFile`, `Batch`, `Archive`, `Sweeps`, `Silence` and `Announce` prove what holds in
   every reachable state, `Calls` what a whole call leaves alone, and `Escape` gives the runs that show which
   conditions are needed. `Outcomes` says what each returned value means on any line, and what the caller
   (`IAP/download.c`) tells the user. `TwoParty` and `Delivery` put a stop-and-wait sender and two lossy lines
   around the receiver, up to the packet that ends the session, and `EndToEnd` goes from the bytes of a transfer to
   the image in flash.
2. **Network buffers as owned chains with a cursor** (`LWIP-SRC/api/netbuf.c`, with `pbuf_free`, `pbuf_cat` and
   the one-buffer cases of `pbuf_alloc` of `LWIP-SRC/core/pbuf.c`). `Pbufs` is the memory of `struct pbuf` records
   by address, with both functions as loops over it; `Holders` says who holds which chain; `Netbufs.Stack` has
   every function of `netbuf.c`, the arrival of a packet from a driver, and a reader that uses the cursor.
3. **`netconn_recv` on a TCP netconn** (`LWIP-SRC/api/api_lib.c`, with `recv_tcp` and `do_recv` of
   `LWIP-SRC/api/api_msg.c`). `Accounts` is the bookkeeping over any interleaving of posts and receptions;
   `Netconns.Netconn` is the code, proved to follow it, and a reader that gets the posted bytes back in order.
   `Clients` composes the parts: packets from a driver through a netconn to a reader, two netconns on one stack, and
   netbufs in use beside a netconn.

## How the environment is modelled

- A call of `SerialKeyPressed` is one poll of `Framing.Line`, which is any function from poll numbers to "nothing"
  or a byte. Every claim is for every line unless it says what the line carries.
- The flash device is `Flash.Hardware`: whether an erase completes, what a word holds after a program or a failed
  erase, and what a read outside the device gives, are arbitrary. Assumed: an erase changes words of its own page
  only and leaves them all ones when it completes, and a program changes its own word only.
- `Ymodem_Receive` may run for ever on a line that says nothing, so `YmodemReceive` is observed for `rounds` calls
  of `Receive_Packet`; `rounds` is any number, and nothing else depends on it.
- A sender's frames carry any two trailer bytes, different ones in every transmission if it likes, and a batch ends
  with any empty filename packet.
- A memory pool is a set of records: `memp_malloc` gives any free one, and none exactly when none is free. The heap is
  any function of the buffers in use and the length asked for (`Netbufs.Stack.heap`). The bytes of a new buffer, and the
  fields of a netbuf from `memp_malloc`, are arbitrary.
- A reader of flash sees the words of the device as bytes, lowest first (`Flash.ByteAt`), as the little-endian target
  does. What flash holds of a file is stated of these bytes.
- `payload` stands for the bytes that the pointer designates; `len` bounds them.
- Addresses, `ref` counts and `packets_received` are unbounded; `size` is an `int32_t`, `FlashDestination` and
  `ApplicationAddress + size` are 32-bit, `tot_len` and `len` 16-bit, `recv_avail` a signed 16-bit number, and the
  count that `pbuf_free` returns an 8-bit one, each with its wrap-around.

## What the code does where one might expect something else

- The comment of `Ymodem_Receive` promises the size of the file. The code also returns -1, -2, -3 and 0
  (`Ledger.BooksHold` has the cause of each), and returns the announced size whether or not that many bytes came,
  since an EOT is accepted at any point: `Escape.ReturnsWithoutData` is a session that returns a size without one
  data packet. What a positive value says is exact, on any line: it is the size announced last, and when one filename
  packet was taken, the whole file is in flash if and only if as many bytes came as were announced
  (`Outcomes.ReturnedOne`). A later file starts where the one before ended, while the guard still stops at
  `ApplicationAddress + size`; the condition for any number of files is in `Outcomes.Returned`.
- An empty filename packet returns the last announced size even when that is negative, and `SerialDownload` takes -1,
  -2, -3 for its error codes and any other negative value for a failure; so its report is right as
  `Outcomes.Right` says, and not more. The name that it prints is the one that the last filename packet spells.
- The erase loop stops at the first erase that does not complete and never starts when FLASHStatus is not COMPLETE at the
  call, but the file is programmed all the same (`Journal.JournalHolds`, `Stopping.HeaderErases`).
- The two CRC bytes of a frame are read and not looked at; a packet is accepted by its sequence byte and the
  complement of that. The two-party model therefore loses frames whole and does not corrupt them.
- A repeated packet is answered with NAK (`Ledger.RefusedIffMismatch`), so what is proved of the two parties is
  safety and delivery, not progress after a lost ACK. A repeated EOT is acknowledged again and changes nothing
  (`Delivery.DeliveredFromEotOn`).
- When a word fails to verify, the session ends with -2 and the words before it stay written. The theorems on image,
  erasing and the two parties hold in that state too, up to that word.
- A decimal size of 2^31 or more becomes a negative `size` and passes the test against FLASH_SIZE
  (`Batch.HeaderTest`). Range and write-once hold of all sessions that announce given sizes exactly when each of them
  is at least `-ApplicationAddress` (`Escape.RangeIffTame`; "tame" below); for all other lists of sizes that pass the
  test `Escape.EscapeReachable` gives a session that writes behind the region.
- For three of these sizes ("brims" below: the end of the image is 1, 2 or 3 bytes below address 2^32) the guard
  admits every word of the address space, and `FlashDestination` goes back to 0 after the last one
  (`Escape.TurnsBack`). For all other sizes no packet moves it back (`Escape.NeverBackIff`).
- The erases of a filename packet start at the page of `FlashDestination`. When all of them complete, they stay in
  the region exactly when the size is not negative and the pages from there on have room for it
  (`Sweeps.ErasesKeepRegion`). For a later file that can fail with sizes that are both in order:
  `Escape.NextFileErasesPastRegion` is a session whose first file fills the region and whose second one, of a single
  byte, erases the page behind it.
- The NUL behind a name (size text) stays inside `file_name` (`file_size`) exactly when the packet has a NUL
  (space) where the copy loop can see it (`Header.HeaderBounds`). The model gives each array one more cell.
- The filename packet of a later file starts erasing at the page of `FlashDestination`, which may hold the end of
  the file before; exactly those words are lost (`Sweeps.NextFileErasesTailInRuns`), as in the session of
  `Escape.NextFileLosesWord`. What stays of each finished file is in `Archive.ArchiveHolds`.
- `netbuf_alloc` without memory, of a netbuf with a packet, leaves the cursor on a buffer that is no longer in use
  (`Netbufs.Stack.NetbufAlloc`); `netbuf_first` repairs that. Every other function keeps the cursor of a netbuf
  without a packet at NULL (the `Tidy` clauses of `Netbufs.Stack`).
- `netbuf_chain` onto a netbuf without a packet leaves the other packet in use and held by nobody
  (`Netbufs.Stack.LostIff`), and of a netbuf with a packet onto itself makes a chain that leads into itself and gives
  the netbuf back (`Netbufs.Stack.NetbufChainSelf`).
- `recv_tcp` counts a packet in `recv_avail` before it knows that the mailbox has room and does not take it back
  (`Accounts.AvailAfter`, `Accounts.RefusedClaims`).
- The comment of `netconn_recv` promises a NULL result on memory error or timeout. The code also returns NULL
  without a mailbox, in a fatal state, when listening and at the end of the stream (`Netconns.Netconn.Receive`). The
  end of the stream makes the netconn fatal only when it had no error: after an earlier ERR_MEM or ERR_TIMEOUT, which
  `netconn_recv` itself sets, the next call waits again.

Some functions are cited where they are called. Their own lines are: `Str2Int`, `IAP/common.c` 75 to 156;
`memp_malloc`, `LWIP-SRC/core/memp.c` 337 to 379; `FLASH_PagesMask`, `IAP/common.c` 299 to 314; `pbuf_free` and
`pbuf_cat`, `LWIP-SRC/core/pbuf.c` 603 to 685 and 736 to 758; the pool case of `pbuf_alloc`, `LWIP-SRC/core/pbuf.c`
234 to 332; the invariant of `tot_len`, `LWIP-SRC/include/lwip/pbuf.h` 77 to 85. The model follows those bodies.

## Model

| member | source | states |
|---|---|---|
| Framing.Await | LwIP_V1.3.2/IAP/ymodem.c:53-63 | the wait for a byte ends with the first byte that comes before the deadline, and fails at the deadline exactly when none does |
| Framing.Receive | LwIP_V1.3.2/IAP/ymodem.c:88-137 | an accepted packet has the length of its start byte and a sequence byte that agrees with its complement, whatever was on the line; `Decoding.ReceiveExplains` says the rest |
| Framing.Encode | LwIP_V1.3.2/IAP/ymodem.h:33-51 | well-formed frames take 133, 1029, 1 and 2 bytes |
| Framing.ReadsFrame | LwIP_V1.3.2/IAP/ymodem.c:88-137 | one reception of an encoded frame yields that frame, stops behind its last byte and leaves the rest of the packet buffer |
| Framing.FramingRoundTrip | LwIP_V1.3.2/IAP/ymodem.c:88-137 | receptions from a line that carries any sequence of well-formed frames, with any pauses below the timeout, yield exactly that sequence and stop behind its last byte |
| Decoding.ReceiveExplains | LwIP_V1.3.2/IAP/ymodem.c:88-137 | the converse, on any line: for every outcome but a failure exactly the bytes of the frame that the outcome and the packet buffer show came, each in time, and the line is left behind them; for a failure the bytes that came are noise, a CA and something else, a whole frame whose sequence bytes disagree, or an unfinished frame (or one CA, or nothing) before NAK_TIMEOUT polls of silence |
| Decoding.FailsIffNoFrame | LwIP_V1.3.2/IAP/ymodem.c:88-137 | a reception fails if and only if the bytes of no frame come |
| Header.Scan | LwIP_V1.3.2/IAP/ymodem.c:185-193 | a copy loop takes the bytes before the first stop byte, at most the limit |
| Header.Str2Int | LwIP_V1.3.2/IAP/ymodem.c:195 | the loops of `Str2Int` compute the value that the number parser gives, keep the old one when the text is no number, and say which |
| Header.Pages | LwIP_V1.3.2/IAP/ymodem.c:207-209 | the least number of pages that covers the size, never beyond the region for a size that fits it |
| Header.HeaderRoundTrip | LwIP_V1.3.2/IAP/ymodem.c:185-194 | every non-NUL name below 256 bytes and every size text below 16 bytes without a space are read back exactly |
| Header.HeaderBounds | LwIP_V1.3.2/IAP/ymodem.c:185-194 | each stored NUL stays in its array if and only if its delimiter is in sight of the loop; no read passes index 276 |
| Header.SizeRoundTrip | LwIP_V1.3.2/IAP/ymodem.c:195 | the decimal text of every number below 2^32 is converted to that number, as an `int32_t` |
| Header.DecimalText | LwIP_V1.3.2/IAP/ymodem.c:195 | every text without a hexadecimal mark: up to ten digits at the start make their number, times 2^10 or 2^20 for a suffix `k` or `m`, mod 2^32; every other text leaves the old size |
| Header.HexText | LwIP_V1.3.2/IAP/ymodem.c:195 | every text with `0x`: one to eight hexadecimal digits and a NUL make their number; every other text leaves the old size |
| Header.HexRoundTrip | LwIP_V1.3.2/IAP/ymodem.c:195 | every number below 2^32 written with the digits 0 to 9 and a to f, in either case, behind `0x` or `0X`, is converted to that number, as an `int32_t` |
| Header.SuffixRoundTrip | LwIP_V1.3.2/IAP/ymodem.c:195 | every decimal number below 2^32 followed by `k`, `K`, `m` or `M` is converted to 2^10 or 2^20 times it, mod 2^32 |
| Header.Letters | LwIP_V1.3.2/IAP/ymodem.c:195 | which characters count as digits, hexadecimal digits, suffixes and marks |
| Session.RunIsExec | LwIP_V1.3.2/IAP/ymodem.c:152-283 | a run on a line is the packet-by-packet execution of what is received from that line, for any number of receptions |
| Session.RunStops | LwIP_V1.3.2/IAP/ymodem.c:154-277 | a run makes receptions from where the one before left the line, and ends, with the line and the packet buffer as that left them, behind the first that ends the session |
| Receiver.Ymodem.ReceiveByte | LwIP_V1.3.2/IAP/ymodem.c:53-63 | the countdown loop returns the first byte before the deadline, or -1 at the deadline |
| Receiver.Ymodem.ReceivePacket | LwIP_V1.3.2/IAP/ymodem.c:88-137 | return value, length, packet buffer and line position are those of `Framing.Receive`, on every line, which `Decoding.ReceiveExplains` characterises |
| Receiver.Ymodem.CopyText | LwIP_V1.3.2/IAP/ymodem.c:185-194 | a copy loop stores exactly the scanned text and a NUL and leaves the rest of the array; it ends at the scanned end |
| Receiver.Ymodem.CopyHeader | LwIP_V1.3.2/IAP/ymodem.c:185-195 | name, size text and size after both copy loops and the conversion, and nothing else changed |
| Receiver.Ymodem.ErasePages | LwIP_V1.3.2/IAP/ymodem.c:209-215 | the erase loop does the erases of the specification, in order, and stops at the first that does not complete (`Stopping.HeaderErases`) |
| Receiver.Ymodem.FilenamePacket | LwIP_V1.3.2/IAP/ymodem.c:179-227 | the whole state after a filename packet, with its three outcomes, is that of `Session.AcceptHeader` |
| Receiver.Ymodem.ProgramWord | LwIP_V1.3.2/IAP/ymodem.c:236-246 | one word programmed and read back; a difference ends the session with -2 and two CA |
| Receiver.Ymodem.ProgramPacket | LwIP_V1.3.2/IAP/ymodem.c:232-247 | the programming loop, with its exit on a failed verification, refines the recursive specification (`Programming.PacketPrograms`) |
| Receiver.Ymodem.DataPacket | LwIP_V1.3.2/IAP/ymodem.c:229-251 | the whole state after a data packet is that of `Session.AcceptData` |
| Receiver.Ymodem.Dispatch | LwIP_V1.3.2/IAP/ymodem.c:156-272 | the switch on the outcome of a reception makes the step of the specification in every case |
| Receiver.Ymodem.YmodemReceive | LwIP_V1.3.2/IAP/ymodem.c:144-284 | the nested loops take session, packet buffer and line exactly where the specification's run takes them, for every line, device and number of receptions; against the state of the caller: without a filename packet taken, flash, FLASHStatus, RAM buffer and texts are the old ones, with one, words off its pages are, and words that no operation touches always are |
| Ledger.RefusedIffMismatch | LwIP_V1.3.2/IAP/ymodem.c:173-176 | a packet is answered with NAK if and only if its sequence byte is not the count's low byte; then nothing but the error count and that one reply changes |
| Ledger.BooksHold | LwIP_V1.3.2/IAP/ymodem.c:152-282 | in every reachable state: packet k of a file has sequence byte k mod 256; ACKs match packets taken, EOTs, sender aborts and empty filename packets, NAKs match packets with a wrong sequence byte, requests match filename packets and failures; CA was sent twice at the end or never; `errors` is the current run of failures and the sixth ends the session; each returned value has exactly its cause |
| Replies.RepliesAre | LwIP_V1.3.2/IAP/ymodem.c:154-277 | everything sent in a session is, byte by byte and in order, the answer to each reception: ACK and then the request for a filename packet, one ACK for data, EOT, CA and the empty filename packet, NAK for a wrong sequence byte, two CA at an abort, a request for a failure |
| Flash.WordBytes | LwIP_V1.3.2/IAP/ymodem.c:236 | the word programmed from four bytes of the packet is read as these bytes, the first at the lowest address |
| Image.PacketImage | LwIP_V1.3.2/IAP/ymodem.c:232-247 | the programming loop burns exactly the words of the packet that fit the size, logs exactly those writes, or breaks at the first word that does not verify |
| FileImage.ImageHolds | LwIP_V1.3.2/IAP/ymodem.c:199-250 | in every reachable state, before and after the EOT and when the session has returned: flash is the state after the latest file's filename packet (tame sizes) with its payloads, cut to the size rounded up to a word, burnt in at the destination of that moment, and the operations since are exactly those writes; a word that failed to verify is the last one written and the only one that differs |
| Erasing.ErasedClears | LwIP_V1.3.2/IAP/ymodem.c:212-215 | off its pages the erase loop changes no word; when the status is COMPLETE afterwards each page was erased in turn and reads as ones |
| Journal.JournalHolds | LwIP_V1.3.2/IAP/ymodem.c:207-247 | in every reachable state, for any sizes: flash is what the operations made so far make of its old contents; each erase ended as the device says, none follows one that failed, there is none when FLASHStatus was not COMPLETE at the start, and it is COMPLETE exactly when it was and no erase failed; every word programmed was read back as written but the last one of a session that ended for it, which was not |
| Journal.UntouchedWords | LwIP_V1.3.2/IAP/ymodem.c:144-284 | in every reachable state a word that no operation of the session touches holds what it held before the call |
| Stopping.HeaderErases | LwIP_V1.3.2/IAP/ymodem.c:207-215 | in any reachable state and for any size, the erases of a filename packet are of pages in a row from the destination's on: none unless FLASHStatus was COMPLETE, as many as the size asks for or up to the first that fails; words off these pages stay |
| Programming.PacketPrograms | LwIP_V1.3.2/IAP/ymodem.c:231-247 | at any destination and for any size, a data packet's words are programmed in order, modulo 2^32, up to the first address that the guard does not admit or the first word that is not read back |
| Texts.TitledHolds | LwIP_V1.3.2/IAP/ymodem.c:182-231 | in every reachable state: without a filename packet taken `file_name` and `file_size` are those of the caller, and then those of the latest filename packet, also after the EOT and on return; the name is the text at the start of that packet; the RAM buffer starts with the latest data packet |
| Texts.DataTexts | LwIP_V1.3.2/IAP/ymodem.c:231 | a data packet goes to the front of the RAM buffer, and the bytes behind it stay |
| FirstFile.FirstFileImage | LwIP_V1.3.2/IAP/ymodem.c:229-250 | in every reachable state with one filename packet taken, of tame size, also after the EOT and on return: `FlashDestination` has moved by min(length received, size rounded up to 4), or up to the word that failed to verify; so many bytes of the content are read from flash at their places, no other word differs from the state after the filename packet, and off the file's pages none from before it |
| FirstFile.EraseBeforeProgram | LwIP_V1.3.2/IAP/ymodem.c:207-247 | when the erases completed, every program operation of the first file follows a completed erase of its page, the last word and one that fails to verify included |
| FirstFile.SegmentationIndependence | LwIP_V1.3.2/IAP/ymodem.c:231-247 | two sessions that carry the same bytes up to the rounded size, in packets cut in any way, leave the same flash, destination and operations |
| Batch.BatchHolds | LwIP_V1.3.2/IAP/ymodem.c:199-247 | over whole sessions with any number of files of tame sizes, the destination stays an aligned address of the region or its end, and no word is programmed out of range or twice |
| Batch.NeverBack | LwIP_V1.3.2/IAP/ymodem.c:199-247 | in every run whose sizes do not brim, tame or not, however many files, no packet moves the destination back |
| Escape.NeverBackIff | LwIP_V1.3.2/IAP/ymodem.c:199-247 | in every run that announces one size, no packet moves the destination back, if and only if that size does not brim |
| Escape.TurnsBack | LwIP_V1.3.2/IAP/ymodem.c:229-247 | for each size that brims, a run from any start whose last packet moves the destination to 0 |
| Batch.GuardKeepsRegion | LwIP_V1.3.2/IAP/ymodem.c:199-233 | the guard of the programming loop excludes every address past the region if and only if the size is not below minus `ApplicationAddress` |
| Batch.EscapesIffUntame | LwIP_V1.3.2/IAP/ymodem.c:229-247 | at the end of the region, a data packet in sequence writes nothing if and only if the size is tame, and otherwise its first word |
| Escape.EscapeReachable | LwIP_V1.3.2/IAP/ymodem.c:182-250 | for every list of sizes that pass the test, one of them not tame, a session from any start that announces exactly these and programs the word behind the region |
| Escape.RangeIffTame | LwIP_V1.3.2/IAP/ymodem.c:199-247 | every session that announces a given list of sizes keeps range and write-once if and only if they are all tame |
| Batch.NextFileErasesTail | LwIP_V1.3.2/IAP/ymodem.c:207-215 | of the words below the destination, a later filename packet erases exactly those on the destination's page |
| Sweeps.NextFileErasesTailInRuns | LwIP_V1.3.2/IAP/ymodem.c:207-215 | the same in every reachable state of a session with tame sizes |
| Escape.NextFileLosesWord | LwIP_V1.3.2/IAP/ymodem.c:207-215 | a session with sizes FLASH_SIZE - 1 and 1 whose first file's first word is in flash, and is all ones after the second filename packet |
| Archive.ArchiveHolds | LwIP_V1.3.2/IAP/ymodem.c:199-250 | in every reachable state of a session whose sizes fit: the files lie one behind the other, and each finished one is in flash as far as it came, below the page on which the next one starts, and all of the last one as long as no other has started |
| Sweeps.ErasesKeepRegion | LwIP_V1.3.2/IAP/ymodem.c:207-215 | at any destination in the region, the erases of a filename packet stay in the region if the size is not negative and its pages from the destination's on end there; when all complete, only if |
| Sweeps.ErasesKeepRegionInRuns | LwIP_V1.3.2/IAP/ymodem.c:207-215 | the same in every reachable state of a session with tame sizes |
| Escape.NextFileErasesPastRegion | LwIP_V1.3.2/IAP/ymodem.c:207-215 | a session with sizes FLASH_SIZE - 1 and 1 erases the page behind the region |
| Sweeps.SweptHolds | LwIP_V1.3.2/IAP/ymodem.c:207-247 | over whole sessions with tame sizes and FLASHStatus COMPLETE, every word programmed for any file follows a completed erase of its page, and so will the rest of the current file |
| Batch.HeaderTest | LwIP_V1.3.2/IAP/ymodem.c:195-205 | the test lets a decimal size through if and only if it is below FLASH_SIZE or at least 2^31, and which of those are tame |
| Silence.SilenceEnds | LwIP_V1.3.2/IAP/ymodem.c:259-271 | once a packet was taken, silence ends the session after exactly 6 - errors receptions of NAK_TIMEOUT polls, not one earlier, with 0, the requests and two CA, and without touching the file |
| Silence.SilenceBeforeSession | LwIP_V1.3.2/IAP/ymodem.c:259-271 | before that, silence never ends it: one request per reception, for ever |
| Announce.HeaderPacket | LwIP_V1.3.2/IAP/ymodem.c:182-218 | the filename packet of a file of n bytes is refused with -1 if and only if n is not below FLASH_SIZE; name and size are stored exactly |
| Announce.HeaderText | LwIP_V1.3.2/IAP/ymodem.c:182-218 | the same for any size text: name and text are stored exactly, the size is what the text is converted to, and the packet is refused with -1 if and only if that is not below FLASH_SIZE |
| Announce.GovernedHolds | LwIP_V1.3.2/IAP/ymodem.c:182-251 | in every reachable state the current file is governed by the size that its own filename packet announced |
| Calls.CallEffect | LwIP_V1.3.2/IAP/ymodem.c:144-284 | what a whole call leaves alone, whatever comes: everything but counters and replies without a filename packet, words off its pages with one, words that no operation touches always |
| Escape.ReturnsWithoutData | LwIP_V1.3.2/IAP/ymodem.c:165-283 | for every size from 1 on that passes, a session that returns it and stores nothing, on any device |
| Outcomes.Positive | LwIP_V1.3.2/IAP/ymodem.c:152-283 | on any line, a positive value comes after an empty filename packet only, and is the size announced last |
| Outcomes.Returned | LwIP_V1.3.2/IAP/ymodem.c:152-283 | on any line, with tame sizes: when a positive value is returned, byte k of the file is read from flash at k bytes behind where the destination was, as far as it came and has room, and the destination has passed `ApplicationAddress + size` if and only if the bytes that came fill the room up to there |
| Outcomes.ReturnedOne | LwIP_V1.3.2/IAP/ymodem.c:152-283 | when one filename packet was taken: the same from the start of the region on, with no word changed off the file's pages; the whole file is there if and only if as many bytes came as were announced |
| Outcomes.ReportedRight | LwIP_V1.3.2/IAP/download.c:51-78 | what the caller tells the user is right for every value returned, the name included, with the one ambiguity of a negative announced size |
| Outcomes.SerialDownload | LwIP_V1.3.2/IAP/download.c:46-79 | the caller over the receiver's own code, on any line: its report is right, with the name that the last filename packet spells, a success of tame sizes has the file in flash as far as it came and has room, with the condition of `Outcomes.Returned`, and flash and texts are those before the call where `YmodemReceive` says so |
| TwoParty.BlockArrives | LwIP_V1.3.2/IAP/ymodem.c:173-251 | when frame f of a file, with any trailer, arrives at a receiver that took f or f + 1 packets: it is taken and acknowledged, or refused, or ends the session; no old frame is taken for the expected one |
| TwoParty.CoupledAlways | LwIP_V1.3.2/IAP/ymodem.c:154-277 | every move of sender, receiver and lossy lines keeps the two parties coupled, over every run, from the first request through the EOT, its repetitions and the empty filename packet |
| Delivery.InStepAlways | LwIP_V1.3.2/IAP/ymodem.c:154-277 | up to the EOT the receiver's count is the sender's index or one more, however long the file, what it took is the file's first packets, and a frame on the line whose low byte is expected is the expected frame |
| Delivery.PrefixAlways | LwIP_V1.3.2/IAP/ymodem.c:154-277 | up to the EOT, flash holds a prefix of what is sent, exactly up to the destination, and nothing off the file's pages changed; after -2 the next word is not the one sent |
| Delivery.DeliveredFromEotOn | LwIP_V1.3.2/IAP/ymodem.c:154-277 | from the first EOT on, whatever is lost or repeated: every packet was taken before it, flash holds every byte of the file that fits its announced size and `file_name` its name, and a session that has returned gave that size, or 0 after six failed receptions |
| Delivery.AcknowledgedIsDelivered | LwIP_V1.3.2/IAP/ymodem.c:165-170 | once the sender has the answer to its EOT, the file is in flash |
| EndToEnd.TransferOverLine | LwIP_V1.3.2/IAP/ymodem.c:88-284 | a line that carries the bytes of a one-file session, with any trailers and any empty filename packet at the end, makes the receiver return the announced size with the file in flash, or -2 with the file in flash up to the word that failed |
| EndToEnd.Download | LwIP_V1.3.2/IAP/ymodem.c:144-284 | the same of the receiver's own code, with the name stored and flash off the file's pages as before the call; for other lines see `Outcomes.SerialDownload` |
| EndToEnd.EveryRun | LwIP_V1.3.2/IAP/ymodem.c:144-284 | books, image of the latest file before and after its EOT, finished files, range, order of the writes and of the erases, the log against the device and the texts hold after any number of receptions from any line |
| Pbufs.TotLenIsLength | LwIP_V1.3.2/LWIP-SRC/api/api_lib.c:338-340 | the invariant of the length fields makes `tot_len` of the first buffer the packet's length mod 2^16, and the length itself if and only if that fits |
| Pbufs.DoomedCount | LwIP_V1.3.2/LWIP-SRC/api/netbuf.c:85-87 | how many buffers a release frees is determined: the leading ones with one reference |
| Pbufs.Buffers.PbufFree | LwIP_V1.3.2/LWIP-SRC/api/netbuf.c:85-87 | exactly the leading buffers with one reference are freed, each once; the next one loses a reference; nothing else changes; the count returned is theirs in 8 bits |
| Pbufs.Buffers.PbufCat | LwIP_V1.3.2/LWIP-SRC/api/netbuf.c:173 | the loop makes exactly the memory of `Catenated`, nothing when one side is empty, and a loop when both are one chain |
| Pbufs.CatenatedChain | LwIP_V1.3.2/LWIP-SRC/api/netbuf.c:173 | that memory is one well-formed chain with `tot_len = len + next.tot_len` at every buffer, holding the first content followed by the second; buffers outside the first chain are untouched |
| Pbufs.CatenatedAssociates | LwIP_V1.3.2/LWIP-SRC/api/netbuf.c:173 | three chains put behind each other either way give the same memory, every link and `tot_len` included |
| Pbufs.LoopedIsNoChain | LwIP_V1.3.2/LWIP-SRC/api/netbuf.c:173 | after a chain was put behind itself nothing well formed starts with its first buffer |
| Holders.DisjointUnion | LwIP_V1.3.2/LWIP-SRC/api/netbuf.c:55-176 | what every function keeps means that the buffers in use are exactly the disjoint union of the chains held |
| Holders.DroppedHeld | LwIP_V1.3.2/LWIP-SRC/api/netbuf.c:81-133 | freeing one holder's chain keeps that for all others and takes just its packet away |
| Holders.PassedHeld | LwIP_V1.3.2/LWIP-SRC/api/api_lib.c:358-361 | so does passing a chain from one holder to another |
| Holders.MergedHeld | LwIP_V1.3.2/LWIP-SRC/api/netbuf.c:168-176 | so does catenation, which gives the first holder both packets in order |
| Holders.ChainingAssociates | LwIP_V1.3.2/LWIP-SRC/api/netbuf.c:168-176 | chaining three packets gives the same store either way: chains, holders, links and total lengths, with the three contents in order |
| Netbufs.Stack.NetbufNew | LwIP_V1.3.2/LWIP-SRC/api/netbuf.c:55-74 | a netbuf without a packet at an unused address, or NULL and nothing changed, exactly when no record of the netbuf pool is free; every chain and packet stays |
| Netbufs.Stack.NetbufDelete | LwIP_V1.3.2/LWIP-SRC/api/netbuf.c:81-91 | the netbuf and its packet go, every other packet stays, and ownership holds; NULL is ignored |
| Netbufs.Stack.NetbufAlloc | LwIP_V1.3.2/LWIP-SRC/api/netbuf.c:101-118 | the old packet is released first; then, exactly when the heap has a place for `size` bytes, the new packet is one buffer of that size there, with the cursor on it; otherwise there is no packet and the cursor stays where it was, which is a buffer no longer in use if there was a packet; every other chain and packet stays |
| Netbufs.Stack.NetbufFree | LwIP_V1.3.2/LWIP-SRC/api/netbuf.c:125-133 | the packet is released and both pointers are NULL; every other chain and packet stays, and the cursors of netbufs without a packet stay NULL |
| Netbufs.Stack.NetbufRef | LwIP_V1.3.2/LWIP-SRC/api/netbuf.c:144-160 | the packet becomes the first `size` bytes of the data, or none with a cleared cursor and ERR_MEM exactly when no pbuf record is free once the old packet is released; ERR_ARG exactly for NULL; every other chain and packet stays |
| Netbufs.Stack.ReleasedIsFree | LwIP_V1.3.2/LWIP-SRC/api/netbuf.c:147-151 | as the old packet is released first, a record that it took up is free for the new one |
| Netbufs.Stack.NetbufChain | LwIP_V1.3.2/LWIP-SRC/api/netbuf.c:168-176 | the head's packet is its old one followed by the tail's, only the tail's record is given back, the head's cursor is at the start, and every other chain and packet stays |
| Netbufs.Stack.NetbufChainSelf | LwIP_V1.3.2/LWIP-SRC/api/netbuf.c:168-176 | with a packet and the same netbuf twice, the one case that `NetbufChain` excludes: the netbuf is given back, its buffers stay in use, no others change, and no well-formed chain is left at the packet's first buffer |
| Netbufs.Stack.LostIff | LwIP_V1.3.2/LWIP-SRC/api/netbuf.c:168-176 | chaining leaves a packet without a holder if and only if the head has none and the tail has one |
| Netbufs.Stack.CursorIsOn | LwIP_V1.3.2/LWIP-SRC/api/netbuf.c:187-238 | the cursor of a netbuf with a packet is on exactly one buffer of its own chain |
| Netbufs.Stack.NetbufData | LwIP_V1.3.2/LWIP-SRC/api/netbuf.c:187-200 | the slice handed out is the part under the cursor; ERR_BUF exactly without a packet, ERR_ARG exactly for NULL |
| Netbufs.Stack.NetbufNext | LwIP_V1.3.2/LWIP-SRC/api/netbuf.c:212-224 | -1 exactly on the last part, 1 exactly on the one before, 0 otherwise; the cursor moves one part on and nothing else changes |
| Netbufs.Stack.NetbufFirst | LwIP_V1.3.2/LWIP-SRC/api/netbuf.c:233-238 | the cursor is on the first part, or NULL without a packet |
| Netbufs.Stack.ReadAll | LwIP_V1.3.2/LWIP-SRC/api/netbuf.c:187-238 | first, data, next until -1: ends, sees every part once in order, gives the packet's whole content, whose length in 16 bits is `tot_len`, and moves only the cursor |
| Netbufs.Stack.ArriveMore | LwIP_V1.3.2/LWIP-SRC/netif/slipif.c:212-229 | one more buffer is put behind the packet with `pbuf_cat`; exactly when the pool has none the packet stays as it is |
| Netbufs.Stack.Arrive | LwIP_V1.3.2/LWIP-SRC/netif/slipif.c:215 | a packet of one buffer for each part comes in under a new name, as from the pool case of `pbuf_alloc`: whole exactly when the pool has that many buffers, and otherwise not at all; every other chain and packet stays |
| Netbufs.Stack.Give | LwIP_V1.3.2/LWIP-SRC/api/api_lib.c:358-361 | a chain of the stack becomes the packet of a netbuf whose fields were undefined; every other packet stays |
| Accounts.AlwaysBalanced | LwIP_V1.3.2/LWIP-SRC/api/api_lib.c:313-371 | over any interleaving of posts and receptions: `recv_avail` is what waits plus what was refused, in signed 16 bits; the bytes posted are those returned followed by those waiting; the credit is for the packets returned |
| Accounts.AvailAfter | LwIP_V1.3.2/LWIP-SRC/api/api_msg.c:216-230 | `recv_avail` is the total length in the mailbox if and only if that fits and the refused packets add up to a multiple of 65536 |
| Accounts.RefusedClaims | LwIP_V1.3.2/LWIP-SRC/api/api_msg.c:216-230 | one refused packet makes an empty netconn claim its length |
| Accounts.CreditExact | LwIP_V1.3.2/LWIP-SRC/api/api_lib.c:363-371 | the credit passed to `do_recv` never exceeds the bytes returned, and equals them if and only if every packet is shorter than 65536 bytes |
| Accounts.StreamInOrder | LwIP_V1.3.2/LWIP-SRC/api/api_lib.c:313-371 | the bytes returned are the first ones posted, and all of them once nothing waits |
| Netconns.Netconn.RecvTcp | LwIP_V1.3.2/LWIP-SRC/api/api_msg.c:200-234 | a post makes the account's step, with or without room, and puts the pointer at the end of the mailbox or not; `err` is set, and the netconn is usable exactly with ERR_OK, ERR_MEM, ERR_BUF, ERR_TIMEOUT and ERR_RTE; without a mailbox nothing happens |
| Netconns.Netconn.DoRecv | LwIP_V1.3.2/LWIP-SRC/api/api_msg.c:937-957 | the window opens by the credit unless the netconn is in a fatal state or has no connection |
| Netconns.Netconn.Fetch | LwIP_V1.3.2/LWIP-SRC/api/api_lib.c:327-344 | the first message leaves the mailbox and the account makes its step; the others keep their packets |
| Netconns.Netconn.Receive | LwIP_V1.3.2/LWIP-SRC/api/api_lib.c:292-393 | each of the seven ways to end, if and only if its condition holds, with its `err`: NULL for want of memory exactly when the netconn is usable and no netbuf is free, and a packet whenever it is usable, one is free and the first message is a packet; the netbuf is the result, with both pointers on the packet, or is given back; exactly the chain of the first message changes hands; the account makes its step exactly when a message was taken; the window opens by the credit; whether the next call is served |
| Netconns.Netconn.Consume | LwIP_V1.3.2/LWIP-SRC/api/netbuf.c:187-238 | reading a received packet with the cursor gives its bytes, and deleting its netbuf takes that packet away and no other |
| Netconns.Netconn.ReadStream | LwIP_V1.3.2/LWIP-SRC/api/api_lib.c:313-371 | receiving, reading and deleting packet after packet gives the next bytes of the posted stream, in order; exactly the packets read are gone and no netbuf is left behind; with a free netbuf it reads up to the end of the mailbox or of the stream, without one nothing |
| Clients.FromDriver | LwIP_V1.3.2/LWIP-SRC/api/api_lib.c:313-371 | from a new stack and a new netconn: the packets come in up to the first for which the pool has too few buffers, and are read back, byte for byte and in order, all of them when there is a netbuf at all |
| Clients.ReadBoth | LwIP_V1.3.2/LWIP-SRC/api/api_lib.c:313-371 | two netconns on one stack stay valid while each is read, and each reader gets its own stream, as much of it as it asks for when a netbuf is free |
| Clients.WorkBeside | LwIP_V1.3.2/LWIP-SRC/api/netbuf.c:55-176 | making, filling, chaining, reading and deleting netbufs gives their bytes and leaves a netconn on the same stack valid, with the same account |

## Left out

- The UART, the flash registers, real time and the texts of `IAP/download.c`, beyond polls, bytes, the flash device and the return codes.
- `IAP/JumpApp.c`: only its constant `ApplicationAddress` is used.
- CRC-16: the code computes none.
- Progress after a lost ACK: the code answers a repeated packet with NAK.
- Two-party runs of several files: the sender sends one file, its EOT and the empty filename packet.
- What the memory behind `file_name` and `file_size` holds: the one cell behind each is modelled, not what else may live there.
- Overflow of `packets_received` and of `ref` counts.
- The heap's own algorithm (`mem.c`) and its other users: where it finds room, and whether, is any function of the buffers in use and the length.
- `FirstFile.FirstFileImage`: for sessions that have taken one filename packet, as the destination is set once per session; `FileImage.ImageHolds` and `Archive.ArchiveHolds` cover the later files. Off-page words are covered for sizes that are not negative; for negative ones nothing is written.
- `Archive.ArchiveHolds`: for sizes from 0 to FLASH_SIZE - 1; a negative one makes the erase loop run from the destination over up to 2^21 pages, round the address space.
- `FirstFile.SegmentationIndependence`: of two transfers without a failed verification.
- `FileImage.ImageHolds`: for tame sizes; `Escape.EscapeReachable` shows what other sizes do.
- `Batch.NeverBack`: not for the three sizes at which `FlashDestination` wraps, where it is false (`Escape.NeverBackIff`).
- Aliasing of payloads: two buffers never share bytes in this model, and writing through a pointer handed out by `netbuf_data` is not part of it. Buffers and netbufs are records in maps by address, so links, sharing of records and release are captured.
- `Netbufs.Stack.NetbufChain`: not for a netbuf with a packet given twice; `Netbufs.Stack.NetbufChainSelf` has that case.
- `Netbufs.Stack.Arrive`: frees what it has when a buffer cannot be had, as `pbuf_alloc` does; the serial driver in `slipif.c` drops only the byte at hand then and keeps its chain, which is `Netbufs.Stack.ArriveMore`.
- `Netbufs.Stack.NetbufData`: not for a cursor left on a released buffer; and its tests for NULL out-pointers, since a Dafny out-parameter is always there.
- `Netbufs.Stack.NetbufNext`: for a netbuf with a packet, as the code follows the cursor without a test.
- `pbuf_alloc` of several pool buffers as one call: packets of several buffers come in through `Netbufs.Stack.Arrive`, buffer by buffer. Custom deallocation of pool, RAM and ROM buffers.
- The UDP and RAW branch of `netconn_recv`, the event callback, and the rest of `api_lib.c`, `api_msg.c` and `pbuf.c`.
- Posts and receptions are atomic steps that interleave in any order; the protection of `recv_avail` inside a step is not modelled. A call that would wait for ever on an empty mailbox is excluded by a precondition, which applies only without a receive timeout.
- A netconn that is NULL: a Dafny object is always there.
