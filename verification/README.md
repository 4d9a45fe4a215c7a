# dirtie-node: verified model of the firmware's stateful core

dirtie-node is the firmware of a Raspberry Pi Pico W soil sensor. This project models, in Dafny, the parts of
it that keep state or transform bytes, and proves what they promise over all inputs and all runs:

- **Flash key/value store** (`flash_text.dfy`, `flash_map.dfy`, `flash_limits.dfy`, `flash_store.dfy`,
  `flash_run.dfy`). One 4096-byte sector holds `,k1=v1,k2=v2` and a terminator, with backslash escaping; it is
  searched with strstr and edited in place. Every image is a list of entries, live items or fragments left by
  overwritten values that held commas. The raw search is shown to land only on a live key's separator, upsert and
  read are shown to be a put and a get on the list of live items, and any run of writes is shown to refine that
  list, which is a map when no key ends with another. `flash_limits.dfy` says which writes land, by tests on the
  text before the call, and has inputs for each way to fail. `flash_store.dfy` is the code itself on arrays, each
  method tied to those functions, and `flash_run.dfy` whole runs of it.
- **Stored credentials** (`context_strings.dfy`, `credentials.dfy`). The four adjacent strings of the context as one
  memory, the three writes, the three reads, and the first round of the main loop after a reboot.
- **DHCP server** (`dhcp_options.dfy`, `dhcp_leases.dfy`, `dhcp_server.dfy`). Option writing and searching
  (section 2 of RFC 2132), the eight-slot lease table with its 16-bit expiry and wrapping 32-bit clock, and
  DISCOVER and REQUEST (sections 3.1, 4.3.1 and 4.3.2 of RFC 2131) as steps of runs over unbounded true time.
- **Log pipeline** (`base64.dfy`, `timestamps.dfy`, `log_array.dfy`, `ntp.dfy`). The Base64 encoder against
  section 4 of RFC 4648, timestamp rewriting in 64-bit arithmetic, the JSON log array, and the SNTP client
  with its timeout (section 6 of RFC 5905).
- **Boot and run state machine** (`app_state.dfy`), its link to the time client (`clock_link.dfy`), and the
  **provisioning parser** (`provisioning.dfy`).

`bytes.dfy` holds the C string vocabulary: text up to the first NUL, strchr and strstr.

## Reading guide

A buffer is an array of bytes. `Text` is its C string. Objects that the firmware updates in place are classes
whose methods are tied to functions on values; the theorems over runs are about those functions.

What leaves the device or goes into flash is also stated byte by byte, in numbers and ASCII texts and apart from the
functions of the model: the sector (`PlainSector`, `StoredByte`), the provisioning request (`ParsesRequest`), DHCP
messages and replies (`Exchange`), log lines and their array (`DlogBytes`, `ArrayBytes`), Base64 symbols
(`EncodeByTable`), the packets that set the clock (`AnswerSetsClock`). So is the order of the states (`BootPath`,
`SteadyCycle`).

Where the code does not do what its comments, names or tests promise, the model follows the code, and the
exact condition is proved:

- A comma ends a value even when it is escaped (flashmem.c:200-208, 89-97), so a value reads back up to its
  first comma; `test_flashmem_esc` (test/test_flashmem.c:90) is not among the tests that test_main.c runs.
  `WriteReads` and `RunReads` hold for all values; `FragmentsAccumulate` says what commas cost in space.
- A search for `k=` also finds a key that ends with k. `WriteThenRead` says exactly which reads a write
  changes; `SuffixWitness` is a case, `ReadsLastWrite` the map without one.
- splice tests a size that is not the new length (flashmem.c:103) and upsert_key ignores its answer
  (flashmem.c:161); only whole pages are programmed (flashmem.c:183), so a text whose length is a multiple of 256
  loses its terminator. `LandsExactly` is the test before the call under which a write is stored and kept
  terminated. `DroppedWitness` is a run in which write answers OK and the old value stays, `OverrunWitness` one
  in which an accepted value overruns the buffer, `PageWitness` a single plain write that loses the terminator.
- The length guard of the provisioning parser is one too generous (host.c:107-109): a 64-byte value passes, and
  its terminator is written into the next string of the context (state.h:37-42). `AcceptedExactly` says what every
  accepted request leaves: the ssid reads back unless it has 64 bytes and a password follows, the password unless
  it has 64 bytes and a token follows, and hub_loc is intact unless the token has 64 bytes. `LongTokenWitness` is a
  request that is accepted and leaves hub_loc empty, so that `mqtt_init_handler` fails at connect.c:471.
- read copies the escaped form into the context before unescaping (flashmem.c:248-249), so a value takes up the room
  of its escaped form: `SurvivesExactly` is the test before the request under which everything provisioned is in
  the context then and after a reboot, hub_loc included, for all that the parser accepts.
- The SDK's millisecond reading is 32 bits wide, so the clock falls back by 2^32 ms at each wrap, every 49.7 days, and
  a line stamped in another period than the sync is dated wrong by whole periods: `EpochExact`, `ClockAfterSync`,
  `DatingExact` and `GapsPreserved` have the exact conditions over true time, `ClockFallsBack` is a case.
- The client does not re-sync every 30 s (util.c:37): `ntp_poll` is called by `ntp_sync_handler` only, so it stops
  when boot ends: `SteadyNeverPolls`.
- Boot does not always reach MQTT_PUBLISH, because the log dump overrides it (state.c:123-130): `BootEndsAt` says
  when, `BootIntoDumpWitness` is a run.
- The timeout of the SNTP client depends on the timer granting an alarm: `StuckWithoutAlarm`.
- `flash_written` outlives a reset, so a failed flash write after one is not noticed: `FailedWriteAfterReset`.
  The firmware as it stands cannot get there: the reset flag is set only in `basicio_listen_handler`
  (basicio.c:35-43), which nothing calls (main.c:67 and 82 call `basicio_init_handler`). Without a reset a failed
  write is always noticed: `FailedWriteNoticed`. The results about resets are about state.c as written.
- A publish that is due together with a log dump is lost: `PublishLostToDump`, in a run: `PublishLostWitness`.
- A log message of exactly the room left in the line buffer loses its last byte without the truncation mark
  (logger.c:29-37): `DlogTextIsLine`.

Modelling choices: masks and shifts of the Base64 codec are written as quotients and remainders by powers of
two, which `MasksAreDigits` justifies on bit vectors; shifting a 16-bit expiry left by 16 is taken modulo 2^32, which
is what the compiler's wrapping gives; clock readings, alarm ids, handler failures and packets are parameters or
nondeterministic events; an interrupt or network callback is one step.

## Model

| member | source | states |
|---|---|---|
| FlashText.MatchInEntry | src/flashmem/flashmem.c:143-143 | inside one entry, `k=` matches only at the entry's own separator and only if its key ends with k; never in a fragment or a value |
| FlashText.FindInImage | src/flashmem/flashmem.c:132-143 | the raw strstr on a whole image finds exactly the first live key that ends with k, and nothing when there is none |
| FlashText.ScanInImage | src/flashmem/flashmem.c:157-160 | scanning for a comma from anywhere inside an entry stops at the end of that entry |
| FlashText.SpliceInImage | src/flashmem/flashmem.c:99-122 | cutting from the match to the next comma and inserting the new item gives the image with that one entry replaced |
| FlashText.UpsertInImage | src/flashmem/flashmem.c:124-167 | an upsert that goes through keeps every other entry, keeps the key found, and leaves a well-formed image, leftovers of comma-bearing values included |
| FlashText.ReadInImage | src/flashmem/flashmem.c:219-263 | a read returns the unescaped value of the first live key that ends with k, KEYNOTFOUND if there is none |
| FlashText.UnescapeCut | src/flashmem/flashmem.c:56-87 | unescaping what is stored up to the first comma gives the original up to its first comma; escaping is inverted |
| FlashText.EscapeGuarded | src/flashmem/flashmem.c:75-83 | after escaping every equals sign follows a backslash, which is what keeps values and leftovers out of key searches |
| FlashText.EscapeExactly | src/flashmem/flashmem.c:60-87 | the stored form is longer by one byte for each byte 61, 44 and 92 of the value, and is the value itself without them |
| FlashText.StoredByte | src/flashmem/flashmem.c:75-83 | anywhere in a value exactly the bytes 61, 44 and 92 are stored behind a 92, every other byte as itself |
| FlashMap.WriteThenRead | src/flashmem/flashmem.c:124-263 | the interference law: a write changes exactly the reads that share its slot, and its own key always does |
| FlashMap.ReadIsGet | src/flashmem/flashmem.c:219-263 | reading the text is looking up the list of live items |
| FlashMap.UpsertIsPut | src/flashmem/flashmem.c:124-167 | upserting is a put on that list, whatever commas the old and new values hold |
| FlashMap.WriteReads | src/flashmem/flashmem.c:124-263 | on any well-formed image, after one write the key reads as the value up to its first comma and every key outside its slot reads as before |
| FlashMap.FragmentsAccumulate | src/flashmem/flashmem.c:155-162 | each write adds one leftover per comma of its value and none is ever removed |
| FlashMap.RunHolds | src/flashmem/flashmem.c:124-195 | run invariant: the sector is a well-formed image of the writes that landed; no leftover holds an unescaped equals sign |
| FlashMap.RunReads | src/flashmem/flashmem.c:124-263 | over every safe run, for all keys and values, a read sees the suffix-searched list of landed writes, values cut at the first comma |
| FlashMap.RunRefinesMap | src/flashmem/flashmem.c:124-263 | with keys none of which ends with another, over every safe run, a read returns the last landed value of its key up to its first comma, KEYNOTFOUND if there was none |
| FlashLimits.ReadsLastWrite | src/flashmem/flashmem.c:124-263 | the map, for every run of accepted writes with room (twice the old length plus the new item at most 4095, no length a multiple of 256): a read returns exactly the last comma-free value written, any value up to its first comma, KEYNOTFOUND if none was written |
| FlashLimits.RoomyRunLands | src/flashmem/flashmem.c:124-195 | in such a run every write lands |
| FlashLimits.SmallRunsAreRoomy | src/flashmem/flashmem.c:145-183 | a condition on the writes alone: accepted keys and items of less than 256 bytes together |
| FlashLimits.LandsExactly | src/flashmem/flashmem.c:99-105 | for every image and write: stored and terminated afterwards exactly when a test before the call passes, with the resulting length |
| FlashLimits.WhenWritesLand | src/flashmem/flashmem.c:99-105 | for every text, accepted key and accepted value: stored, refused, silently dropped or overrun, each exactly when a test on lengths before the call says so |
| FlashLimits.RoomSuffices | src/flashmem/flashmem.c:145-162 | twice the old length plus the new item at most 4095 (less on an empty image) means the write lands |
| FlashLimits.RefusedExactly | src/flashmem/flashmem.c:125-173 | which error each refused write gives: above 256 bytes, a key with 92, 44 or 61, a new item beyond 4095 bytes; nothing else is refused |
| FlashLimits.FirstWrite | src/flashmem/flashmem.c:145-155 | the bytes of a first write: 44, key, 61, value, the value verbatim when it holds no special byte |
| FlashLimits.PageWitness | src/flashmem/flashmem.c:182-183 | one plain 253-byte write on a fresh sector answers OK and leaves no terminator |
| FlashLimits.SuffixWitness | src/flashmem/flashmem.c:143-143 | on two runs of the store: writing `k` changes what `kk` reads |
| FlashLimits.DroppedWitness | src/flashmem/flashmem.c:99-105 | a reachable image on which an overwrite answers OK and the old value is still read |
| FlashLimits.OverrunWitness | src/flashmem/flashmem.c:99-105 | a reachable image on which an accepted overwrite passes the guard and puts 4117 bytes into the buffer |
| FlashStore.EscChars | src/flashmem/flashmem.c:56-87 | the counted buffer is filled exactly with the escaped value and its terminator |
| FlashStore.GetNextItem | src/flashmem/flashmem.c:89-97 | the first comma from the match on, or none |
| FlashStore.GetValEnd | src/flashmem/flashmem.c:197-217 | the escape-skipping scan of the reader also stops at the first comma or the end, on every buffer |
| FlashStore.ItemEndsAgree | src/flashmem/flashmem.c:157-160 | for every text: the scan for the end of an item from the match, as the writer does it, and from the value, as the reader does it, find the same comma |
| FlashStore.Splice | src/flashmem/flashmem.c:99-122 | the guard decides; otherwise the text is the old one with the range replaced, still terminated |
| FlashStore.UnescapeInPlace | src/flashmem/flashmem.c:251-259 | the memmove loop leaves exactly the unescaped string, a trailing backslash included, zeros in the room it frees, and the rest of the memory as it was |
| FlashStore.Flash.InitializeFlash | src/flashmem/flashmem.c:26-54 | zeroes the sector if forced or entirely erased, leaves any other sector alone |
| FlashStore.Flash.UpsertKey | src/flashmem/flashmem.c:124-167 | the buffer's text and the status are those of UpsertText; the sector is not touched |
| FlashStore.Flash.Write | src/flashmem/flashmem.c:169-195 | status and new sector text are those of WriteText; the terminator survives exactly when the length is not a multiple of 256 |
| FlashStore.Flash.Read | src/flashmem/flashmem.c:219-263 | result of ReadText; the output memory holds the value at the place asked for and zeros over the rest of the room of the stored form, and is otherwise, or on KEYNOTFOUND, unchanged |
| FlashRun.WriteAll | src/flashmem/flashmem.c:169-195 | the store itself after any run that keeps its terminator: the sector holds the image of the run, and each status tells whether the write programmed |
| FlashRun.WriteAllThenRead | src/flashmem/flashmem.c:26-263 | from a factory-fresh sector, any roomy run and then a read: the last value written up to its first comma, in the memory too, KEYNOTFOUND if none |
| ContextStrings.PlacedReads | src/state/state.h:37-42 | what the four adjacent strings read after three writes with any room each: a full one runs on into the next, and hub_loc is empty as soon as one write reaches it |
| ContextStrings.PlacedExactly | src/state/state.h:37-42 | exactly when each string reads back and hub_loc is intact |
| Credentials.FlashWriteHandler | src/flashmem/flashmem.c:296-315 | three writes in order of what the context reads as, stopping at the first error; flash_written set only when all succeed |
| Credentials.StopsAtFirstError | src/flashmem/flashmem.c:296-315 | the status and the sector of three writes, by which of them is refused first |
| Credentials.FlashInitHandler | src/flashmem/flashmem.c:265-294 | flags and the whole string memory according to which of the three keys the sector holds, stopping at the first one missing |
| Credentials.FirstRound | src/main.c:69-75 | after a reboot a device with stored credentials is in MQTT_INIT, one without in WIFI_CONFIG, with the memory flash_init_handler leaves |
| Credentials.WriteName | src/flashmem/flashmem.c:296-307 | each credential write lands, keeps the terminator and leaves one entry per credential |
| Credentials.CredentialsSurvive | src/flashmem/flashmem.c:265-315 | after any history of writes of storable credentials all succeed, the image is at most 215 bytes and terminated, and the last three values are stored escaped and read back |
| Credentials.Reboot | src/main.c:69-75 | any history of stored credentials, then a reboot: MQTT_INIT after one round, with the last credentials in the context and hub_loc intact |
| Credentials.FirstProvisioning | src/flashmem/flashmem.c:265-315 | the first provisioning of any strings of up to 64 bytes: the writes succeed unless the image fills exactly one page, and each is stored, and reads back, up to its first comma |
| Credentials.RestoredIsPlaced | src/flashmem/flashmem.c:269-286 | reading back three stored forms places their values in the context, each taking the room of its stored form |
| Credentials.SurvivesExactly | src/flashmem/flashmem.c:265-315 | of all triples the parser accepts, provisioned on a fresh sector, exactly those that pass a test before the request are in the context as provisioned, written without an error or a lost terminator, and in the context again after a reboot, with hub_loc intact both times |
| Credentials.PlainSector | src/flashmem/flashmem.c:296-315 | plain credentials of at most 63 bytes survive and stand in the sector as `,ssid=...,password=...,contract=...`, byte by byte |
| DhcpOptions.OptFind | src/access_point/dhcpserver.c:116-124 | the loop returns the first option of the code before END, inside the buffer, and terminates |
| DhcpOptions.OptWriteN | src/access_point/dhcpserver.c:126-132 | code, length and payload at the cursor, nothing else changed |
| DhcpOptions.OptWriteU8 | src/access_point/dhcpserver.c:134-140 | the same for one byte |
| DhcpOptions.OptWriteU32 | src/access_point/dhcpserver.c:142-151 | the same for a 32-bit value in network order |
| DhcpOptions.FindWritten | src/access_point/dhcpserver.c:116-151 | any option list written and closed by END is searched safely, and the first option of the code comes back with its exact payload, or none |
| DhcpLeases.StampIsLeaseEnd | src/access_point/dhcpserver.c:241-241 | the stored 16 bits are the high half of the lease end modulo 2^32 |
| DhcpLeases.ExpiredExactly | src/access_point/dhcpserver.c:199-200 | the wrapped test at any two true times: expired in the half period after the end, and in every later period alike |
| DhcpLeases.LeaseWindow | src/access_point/dhcpserver.c:199-200 | never expired up to the lease end, which is a day to 65535 ms more after the stamp; then expired for 2^31 ms |
| DhcpLeases.DiscoverOffers | src/access_point/dhcpserver.c:185-211 | silent exactly when all slots are held by others and unexpired; else the first slot of the client, else the first free or expired one, which a REQUEST would get |
| DhcpLeases.DiscoverClears | src/access_point/dhcpserver.c:199-204 | at most one slot changes, and only an expired one of another client loses its owner |
| DhcpLeases.DiscoverClearsExactly | src/access_point/dhcpserver.c:186-206 | for every slot, exactly when DISCOVER clears its owner |
| DhcpLeases.RunsAreSafe | src/access_point/dhcpserver.c:184-252 | run invariant: an acknowledged client keeps its slot, freshly stamped, until more than a day has passed |
| DhcpLeases.Exclusive | src/access_point/dhcpserver.c:184-252 | for every interleaving and any number of clock wraps, two clients are acknowledged for one address only more than 86,400,000 ms apart |
| DhcpLeases.OfferHonoured | src/access_point/dhcpserver.c:185-248 | an offered slot stays requestable through any messages until another client is acknowledged for it |
| DhcpServer.Server.PickSlot | src/access_point/dhcpserver.c:186-211 | the single clearing and picking pass computes the offer and table of the specification, with a clock reading per slot |
| DhcpServer.Server.Grant | src/access_point/dhcpserver.c:226-241 | REQUEST is granted for the client's own or a free slot, stamping it, and changes nothing otherwise |
| DhcpServer.Server.Process | src/access_point/dhcpserver.c:153-265 | a message changes the table as its decoded event does, and is answered exactly when that event is, with the address and the option bytes of the specification |
| DhcpServer.WireMeaning | src/access_point/dhcpserver.c:178-227 | for every option list closed by 255: option 53 holding 1 or 3 is the event, option 50 the address asked for, anything else is ignored |
| DhcpServer.OfferIsFirstChoice | src/access_point/dhcpserver.c:186-211 | the slot offered is the client's first, or the first free or expired one, and none is exactly eight held and unexpired |
| DhcpServer.ReplyIsBytes | src/access_point/dhcpserver.c:254-260 | the bytes of a reply, from 53, 1, type to 51, 4, 0, 1, 81, 128, 255 |
| DhcpServer.Exchange | src/access_point/dhcpserver.c:153-265 | on the wire, for any options in any order: 53 holding 1 is answered 53, 1, 2 with address 16 + slot unless all eight slots are held and unexpired; 53 holding 3 is answered 53, 1, 5 exactly when the slot asked for is own or free; other messages change nothing |
| DhcpServer.ProcessIsStep | src/access_point/dhcpserver.c:184-252 | what Process does to table and acknowledgements is a step of the runs above |
| DhcpServer.Serve | src/access_point/dhcpserver.c:153-265 | a loop over any messages: table and acknowledgements, as read off the replies, are those of the run, and no address is acknowledged to two clients within a day |
| DhcpServer.AckedIsRequested | src/access_point/dhcpserver.c:217-242 | yiaddr of an ACK is the address requested |
| DhcpServer.ReplyParses | src/access_point/dhcpserver.c:254-259 | every reply parses back to its six options with their payloads, the lease time being 86400, which is the time the slot is kept |
| Base64.MasksAreDigits | src/b64/b64.c:56-59 | the four mask and shift expressions, on bit vectors, are the four base-64 digits of the group |
| Base64.Codec | src/b64/b64.c:56-59 | the same digits on bytes as numbers |
| Base64.LetterIsInTable | src/b64/b64.h:36-45 | the alphabet is the 64 characters of b64_table, in order |
| Base64.EncodeByTable | src/b64/b64.c:38-113 | every group of every input, padded ones included, is encoded by the table at its digits |
| Base64.TestVectors | src/b64/b64.c:38-113 | the seven test vectors of section 10 of RFC 4648 |
| Base64.DecodeOfEncode | src/b64/b64.c:38-113 | a decoder inverts the encoding of every input |
| Base64.EncodeInjective | src/b64/b64.c:38-113 | different inputs have different encodings |
| Base64.EncodeLength | src/b64/b64.c:38-113 | 4 * ceil(n / 3) symbols, none of them a quote, a comma or NUL |
| Base64.Buffer.Reserve | src/b64/b64.c:26-36 | the buffer grows in 64K blocks to the size asked for and keeps its contents |
| Base64.Remainder | src/b64/b64.c:76-103 | the last one or two bytes give the padded final group |
| Base64.B64Encode | src/b64/b64.c:38-113 | the loop with its carry, remainder and growing buffer computes the RFC 4648 encoding, by the table, never writing past capacity |
| Timestamps.LogTransformTs | src/logger/logger.c:74-90 | in place, only the thirteen digits change, to the number printed from the wrapped differences |
| Timestamps.EpochExact | src/util/util.c:189-202 | over true time up to the end of the 64-bit microsecond timer: the clock is the cached second times 1000 plus the time since exactly while the 32-bit reading is in the period of the sync, later behind by one period for each wrap |
| Timestamps.ClockFallsBack | src/util/util.c:198-199 | synced one second after boot, the clock is right at 4294967295 ms and one second behind its sync a millisecond later |
| Timestamps.WrapsCancel | src/logger/logger.c:83-84 | the 64-bit wraps of the two modules cancel, also for lines older than the sync |
| Timestamps.RewritingExact | src/logger/logger.c:74-90 | on readings: the rewritten line shows their wall-clock time exactly when that lies in [0, 10^13) |
| Timestamps.DatingExact | src/logger/logger.c:74-90 | over true time, for Unix times from 10 April 1970 on: a line is dated right exactly when the wraps between stamp and sync are those between the two reads |
| Timestamps.GapsPreserved | src/connect/connect.c:369-394 | over true time: two lines of one dump keep their distance, hence their order, exactly when they were stamped in the same 2^32 ms period |
| Timestamps.DlogTextIsLine | src/logger/logger.c:20-37 | every stored line has the prefix with its time and fits 1023 bytes; complete exactly when the message is shorter than the remaining room |
| Timestamps.DigitAt | src/logger/logger.c:25-27 | digit i of a stamp, in ASCII |
| Timestamps.DlogBytes | src/logger/logger.c:20-37 | the whole stored line byte by byte, for both levels: complete up to 1023 bytes, cut by one at 1024, the start up to byte 1015 and the mark beyond |
| LogArray.PutEncoded | src/connect/connect.c:399-408 | encoding at the cursor advances it by exactly the encoded length |
| LogArray.DumpLines | src/connect/connect.c:390-410 | the loop stops at the first empty slot, and no write reaches the end of the buffer |
| LogArray.Assemble | src/connect/connect.c:377-411 | for 0 to 16 lines of at most 1023 bytes the buffer of logarrsize holds exactly the array of the rewritten lines, untruncated |
| LogArray.ArrayFaithful | src/connect/connect.c:387-411 | splitting the array at quotes and commas and decoding gives back the lines in order |
| LogArray.ArrayBytes | src/connect/connect.c:387-411 | the bytes around the encoded lines: `["`, `","`, `"]` |
| Ntp.DecodeAcrossEras | src/util/util.c:107-113 | the decoded second is right for every 32-bit Unix second on both sides of the 1900 era rollover |
| Ntp.NtpClient.SyncDone | src/util/util.c:64-71 | cancels a recorded alarm, re-enables polling after 30 s |
| Ntp.NtpClient.NtpPoll | src/util/util.c:165-186 | when due and idle: alarm recorded, and a cached address is stored and asked at once, a pending lookup waits, a failed one ends the attempt |
| Ntp.NtpClient.NtpDnsFound | src/util/util.c:81-92 | a found address is stored and asked, a failed lookup ends the attempt |
| Ntp.RequestGoesOut | src/util/util.c:81-186 | in every reachable idle and due state a poll leads to exactly one request, to the cached address or the one found later, with its timeout armed; a failed lookup to none |
| Ntp.PollOnlyWhenDue | src/util/util.c:168-169 | a poll does something exactly when due and idle |
| Ntp.AcceptsOnlyAsked | src/util/util.c:81-132 | in every run a response is only accepted from an address a request went to, or the null address before any did |
| Ntp.NtpClient.NtpRecv | src/util/util.c:94-132 | only an acceptable packet syncs; every packet ends the attempt |
| Ntp.AnswerSetsClock | src/util/util.c:94-132 | a packet sets the clock to its second exactly when it passes the five tests, and ends the attempt in any case |
| Ntp.SyncCompletes | src/util/util.c:81-186 | request and answer: from every reachable due state the answer of the server asked sets the clock and leaves no alarm |
| Ntp.NtpClient.NtpFailedHandler | src/util/util.c:73-79 | the alarm ends the attempt |
| Ntp.NtpClient.GetCurrentEpoch | src/util/util.c:189-202 | OFFLINE exactly until synced |
| Ntp.NeverLeaks | src/util/util.c:64-186 | in every reachable state a request is in flight exactly when one alarm is recorded, and it is the only one armed |
| Ntp.NeverSticks | src/util/util.c:64-186 | a request in flight has an alarm that ends it, and every end re-enables polling |
| Ntp.StuckWithoutAlarm | src/util/util.c:171-177 | polls alone never end a request, and nothing else is armed exactly when the timer refused the alarm |
| Ntp.SyncedStays | src/util/util.c:121-132 | synced never reverts |
| Ntp.ClockAfterSync | src/util/util.c:107-202 | from an accepted response until the next, through any other events, the clock is right exactly until the 32-bit reading wraps, and monotone until then |
| AppState.AppCtx.UpdateState | src/state/state.c:34-131 | the switch and the three overrides, in order |
| AppState.RunsStayReady | src/state/state.c:34-131 | over every run with arbitrary failures and events, each state is only entered with the subsystems it needs |
| AppState.SteadyIsOnline | src/state/state.c:114-130 | publish to throttle imply wifi, MQTT with a client, sensor and a synced clock; MQTT_INIT implies credentials |
| AppState.FlagsAreEarned | src/state/state.c:34-131 | over every run, which flags stand for exactly the handlers that did their work in their own state, and what the others need at least |
| AppState.FirstRoundAsks | src/flashmem/flashmem.c:269-273 | a device without stored credentials enters WIFI_CONFIG, one with them MQTT_INIT, a failing one stays |
| AppState.NoCredentialsNoConnection | src/state/state.c:36-50 | until credentials are provisioned or restored no run leaves the first two states |
| AppState.BootMovesForward | src/state/state.c:34-131 | without reset boot never goes back, takes at most six state changes, and the steady loop is not left; where it is entered says BootEndsAt |
| AppState.BootPath | src/state/state.c:34-80 | without a reset every boot visits its states in one of two orders, with or without WIFI_CONFIG and FLASH_WRITE, and skips none |
| AppState.BootEndsAt | src/state/state.c:70-130 | in every run, resets included, the steady loop is entered from NTP_SYNC only, at LOGDUMP when a dump is pending and at MQTT_PUBLISH otherwise |
| AppState.BootIntoDumpWitness | src/state/state.c:123-130 | a boot without a reset or a failure that ends in LOGDUMP and never passes MQTT_PUBLISH |
| AppState.NoDeadEnd | src/main.c:69-75 | from every reachable boot state with no reset pending, whatever resets came before, one round of the main loop with a successful handler enters a later state; in NTP_SYNC two rounds around the server's answer |
| AppState.SteadyCycle | src/state/state.c:76-100 | with nothing pending, any number of updates go through MQTT_LISTEN, BATT_LISTEN, SENSE_LISTEN, LOGDUMP, THROTTLE in that cyclic order, whatever handlers do in between; MQTT_PUBLISH is followed by MQTT_LISTEN |
| AppState.OverridesReturn | src/state/state.c:114-130 | what is pending in a reachable steady state is taken by the next update, and the cycle goes on at THROTTLE after a dump, at MQTT_LISTEN after a publish |
| AppState.TimerPublishes | src/main.c:27-34 | in a steady state the sample timer leads to MQTT_PUBLISH; without a broker connection it does nothing |
| AppState.RequestsWait | src/state/state.c:114-130 | without all four flags a pending publish or dump changes nothing and stays |
| AppState.ResetDemandsProvisioning | src/state/state.c:106-112 | after a reset no run leaves WIFI_CONFIG before credentials are provisioned again |
| AppState.ResetExactly | src/state/state.c:106-112 | exactly what a reset clears, in every run |
| AppState.PublishLostToDump | src/state/state.c:114-130 | a pending publish is honoured exactly when no log dump is pending; otherwise it is consumed and lost |
| AppState.PublishLostWitness | src/state/state.c:114-130 | a reachable state in which a due publish is lost |
| AppState.FailedWriteNoticed | src/state/state.c:52-56 | without a reset FLASH_WRITE is entered with flash_written clear, and the flag is set there only after a write of this run succeeded |
| AppState.FailedWriteAfterReset | src/state/state.c:52-56 | after a failed flash write the machine goes on exactly when flash_written is already set |
| AppState.FailedWriteAfterResetWitness | src/state/state.c:106-112 | such a run of state.c, through a reset event the firmware never raises |
| ClockLink.StepSimulates | src/util/util.c:206-223 | each step of machine and time client together is, for the machine, one of its own steps, a server's answer, or nothing |
| ClockLink.RunSimulates | src/util/util.c:206-223 | every run of the two together is a run of the machine, whose view of the client is the client's own flag |
| ClockLink.ClockWhenDumping | src/connect/connect.c:368-373 | in every run of the two, from MQTT_PUBLISH to THROTTLE get_current_epoch does not report OFFLINE |
| ClockLink.ClockArrives | src/util/util.c:206-223 | joint liveness: poll, address found, accepted answer and one more round lead from NTP_SYNC into the steady loop with the right clock |
| ClockLink.SteadyNeverPolls | src/util/util.c:206-223 | from the steady loop on, without a reset, no step polls the client, no request becomes in flight, and without a further answer the cached second stays that of boot |
| Provisioning.MatchInField | src/access_point/host.c:82-92 | in a printed field the query matches only at the field's own name, even when the value spells one |
| Provisioning.ExtractPrinted | src/access_point/host.c:82-105 | for any number of quote-free fields in any order each search returns the first value of its name |
| Provisioning.ParseInvertsPrint | src/access_point/host.c:81-122 | the three fields in any order are accepted exactly up to 64 bytes each and come back unchanged |
| Provisioning.ParsesRequest | src/access_point/host.c:81-122 | the request byte by byte, `{"ssid":"...","password":"...","token":"..."}`: accepted exactly up to 64 bytes a value, with those values |
| Provisioning.CutOffRefused | src/access_point/host.c:94-111 | a text without one of the names, or without a closing quote behind the first of them, is refused |
| Provisioning.ParseWifiCredentials | src/access_point/host.c:81-122 | for every input: accepts exactly as the guard says, then the memory is that of the three terminated copies and wifi_configd is set, and changes nothing otherwise |
| Provisioning.AcceptedExactly | src/access_point/host.c:107-118 | for every accepted request, exactly when ssid and password read back and hub_loc is intact |
| Provisioning.LongTokenWitness | src/access_point/host.c:107-118 | a printed request with a 64-byte token is accepted, its strings read back, and hub_loc is empty |

## Left out

- lwIP, cyw43, Pico SDK, I2C, GPIO and timer calls: their results are parameters or nondeterministic events.
- Heap lifetime: allocation failure, free, and the pointers that free_logs leaves set (src/logger/logger.c:62-72).
- Power loss inside an erase, a program, or between the three credential writes: each flash operation is one step.
- Empty keys in runs of the store: `=` alone matches inside every item, so the store's results ask for a non-empty key; the methods themselves take any key.
- Runs on a sector that was not initialised by this code: runs start from the zeroed sector.
- FlashStore.Flash.Write: an upsert that would overrun the RAM buffer, and a sector without a terminator, are outside its precondition, because what follows is undefined; when that happens is said by WhenWritesLand and LandsExactly.
- FlashStore.Flash.UpsertKey: takes the same precondition as Write.
- FlashStore.Splice: a replacement that its guard lets through although it does not fit is outside its precondition.
- FlashStore.Flash.Read: the output memory must hold the stored form and a terminator, as its callers assume.
- Credentials.FlashWriteHandler: contexts whose three writes overrun the buffer or lose the terminator, and a context without a terminator up to the end of hub_loc, are outside its precondition.
- Credentials.FlashInitHandler: stored forms that reach behind hub_loc, into the pointers of the context, are outside its precondition; SurvivesExactly says which provisioned credentials stay within it.
- Credentials.FirstRound: takes the same precondition as FlashInitHandler.
- DhcpOptions.OptFind: option lists whose length bytes lead outside the 308 bytes, and PAD without a length byte, are outside its precondition.
- DhcpServer.Server.Process: messages whose options lead or are cut off outside the buffer are outside its precondition; messages shorter than 243 bytes, the copying of the packet, the header fields other than yiaddr and chaddr, and the UDP send are not modelled.
- DhcpServer.Exchange: a type option that does not hold one byte, or a requested address that does not hold four; Process says what those are decoded to.
- Timestamps.LogTransformTs: lines that dlog did not write (no bracket, other characters after it) are outside its precondition.
- The slot search of dlog, its dump_logs flag (an event of the state machine here), and the truncation inside vsnprintf beyond the lengths.
- AppState.AppCtx.UpdateState: the default case of the switch (no other state exists here) and free_logs in the LOGDUMP case.
- Ntp.NtpClient.NtpPoll: the content of the request packet and a failed packet allocation; a request sent is recorded by the address it goes to.
- Breadcrumb and provision payloads, the JSON object around the log array, and the 128-byte copy in publish (src/connect/connect.c:268-360, 413-441).
- TCP connections and HTTP request handling, the HOSTING flag, sensor reads, button and LED handling, MQTT test code, inbound messages.
- JSON escapes and quotes inside provisioned values: the parser does not handle them.
- Interrupts in the middle of update_state or of a handler: timer, network and reset events fall between steps.
