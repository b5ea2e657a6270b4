# Animal-shelter check-in kiosk firmware: byte framing and tables, in Dafny

This project models the logic of two AVR firmware images of an animal-shelter kiosk.
The kiosk reads a dog's RFID tag, flips the dog between "adopted" and "surrendered",
and reports the change to a web server through an ESP8266 Wi-Fi modem.

- `MainBoard/MainBoard/main.c` (the kiosk):
  - the framed RFID receive buffer `RF`, filled by the USART0 receive interrupt;
  - the table of registered tags `cards`, with `find_card`, `get_card_id` and `probe_card_reader`;
  - the HTTP request that `upload_to_server` builds and sends with `UART_ESP8266_cmd`;
  - the ESP8266 line buffer, filled by the USART1 receive interrupt, with `ESP8266_find`,
    `ESP8266_search_for_str` and `ESP8266_clear_buffer`.
- `RFReceiver/RFReceiver/main.c` (a reader test board): a 16-byte receive buffer with the same
  lock-and-release protocol, and the main loop that shows bytes 1 to 10 of it.

Files:

- `bytes.dfy` (module `Bytes`): the 8-bit `char`, the delimiter constants, C strings (`CStr`) and
  what `strcmp(p, t) == 0` means (`MatchesAt`).
- `rfid_frame.dfy` (module `RfidFrame`): the MainBoard `RF` struct.
- `card_registry.dfy` (module `CardRegistry`): `cards`, the lookup and the check-in step.
- `http_upload.dfy` (module `HttpUpload`): the request buffer and the bytes sent to the modem.
- `esp8266.dfy` (module `Esp8266`): the `ESP8266` struct and its searches.
- `rf_receiver.dfy` (module `RfReceiver`): the RFReceiver `RF` struct and its main loop.

Each interrupt handler is a method of a class that owns the struct's fields. The method is
specified by a pure step function over a snapshot of the struct (`State()`), for example
`State() == Received(old(State()), b)`. `Run` applies the step function to a sequence of bytes.
The lemmas about `Received` and `Run` state what the handlers guarantee over time.

Each interrupt runs as one atomic call. The firmware reads `RF.done` directly (`RFID_done` on the
MainBoard); the model reads the `done` field.

The ESP8266 buffer `char buffer[15][52]` is modelled as the flat block of 780 bytes that C lays
it out as. `strcmp` on a row that holds no NUL runs on into the next row, and the flat model
keeps that behaviour.

## Model

| member | source | states |
|---|---|---|
| `Bytes.CStr` | MainBoard/MainBoard/main.c:221 | the string `strcmp` reads is the prefix before the first NUL: it has no NUL and is followed by one |
| `Bytes.MatchesAtIsCStrEquality` | MainBoard/MainBoard/main.c:277 | reading `strcmp(p, t) == 0` as "the bytes at p spell t and then NUL" is the same as comparing the C string at p with t |
| `RfidFrame.Received` | MainBoard/MainBoard/main.c:228-243 | one received byte keeps the buffer well formed: index in [0, 12), `ID[12]` NUL, a locked buffer has index 0 and NULs at `ID[0]` and `ID[11]`, a partial frame starts with 0x0A |
| `RfidFrame.Released` | MainBoard/MainBoard/main.c:209-212 | `RFID_ready` clears `done` and leaves `ID` and `index` as they were |
| `RfidFrame.Run` | MainBoard/MainBoard/main.c:228-243 | the buffer invariant holds after any sequence of received bytes |
| `RfidFrame.LockedIgnoresByte` | MainBoard/MainBoard/main.c:231 | while `done` is set, a received byte changes nothing |
| `RfidFrame.LockedIgnoresBytes` | MainBoard/MainBoard/main.c:231 | while `done` is set, any sequence of received bytes changes nothing |
| `RfidFrame.BadDelimiterRestarts` | MainBoard/MainBoard/main.c:233-236 | a byte other than 0x0A at index 0, or other than 0x0D at index 11, resets the index to 0 without storing the byte, and `done` stays clear |
| `RfidFrame.LocksOnlyOnEndByte` | MainBoard/MainBoard/main.c:237-242 | the buffer locks only on 0x0D at index 11 of a frame that began with 0x0A, and the lock leaves the data bytes between two NULs |
| `RfidFrame.DataBytesStored` | MainBoard/MainBoard/main.c:237 | bytes in the middle of a frame are stored at successive indices in arrival order |
| `RfidFrame.FrameCompletes` | MainBoard/MainBoard/main.c:237-242 | from an empty unlocked buffer, 0x0A, ten data bytes and 0x0D lock the buffer with `ID = 0, data, 0, 0` and index 0 |
| `RfidFrame.TracksLatestBytes` | MainBoard/MainBoard/main.c:232-242 | while unlocked, `ID[0..index)` holds the last `index` bytes received |
| `RfidFrame.LockedHoldsLastFrame` | MainBoard/MainBoard/main.c:228-243 | whenever the buffer locks, the last 12 bytes received were 0x0A, ten data bytes, 0x0D, and `ID` holds those data bytes between NULs |
| `RfidFrame.RfidReceiver.constructor` | MainBoard/MainBoard/main.c:163-168 | the zero-initialised `RF` struct is well formed |
| `RfidFrame.RfidReceiver.OnReceive` | MainBoard/MainBoard/main.c:228-243 | the interrupt handler updates `ID`, `index` and `done` exactly as `Received` does |
| `RfidFrame.RfidReceiver.Ready` | MainBoard/MainBoard/main.c:209-212 | `RFID_ready` changes only `done`, as `Released` does |
| `CardRegistry.Toggled` | MainBoard/MainBoard/main.c:419-430 | a check-in always changes the status |
| `CardRegistry.ToggleTwice` | MainBoard/MainBoard/main.c:419-430 | two check-ins restore the status |
| `CardRegistry.RegisteredTagsShape` | MainBoard/MainBoard/main.c:154-161 | each registered tag read from offset 1 is a C string of exactly its ten ID characters |
| `CardRegistry.FirstMatch` | MainBoard/MainBoard/main.c:219-226 | the answer is the smallest index whose tag from offset 1 equals the scanned ID from offset 1 as C strings, and -1 exactly when no entry matches |
| `CardRegistry.FirstMatchIgnoresStatus` | MainBoard/MainBoard/main.c:221 | the lookup depends on the tags only, so changing statuses never changes its answer |
| `CardRegistry.CardTable.constructor` | MainBoard/MainBoard/main.c:154-161 | the table holds the three registered tags, each starting out surrendered |
| `CardRegistry.CardTable.FindCard` | MainBoard/MainBoard/main.c:219-226 | for any table whose tags are C strings from offset 1, the linear search returns the `FirstMatch` answer and modifies nothing |
| `CardRegistry.CardTable.CardId` | MainBoard/MainBoard/main.c:214-217 | the result is `RF.ID` from offset 1 for `CREADER_INDEX` and the entry's tag from offset 1 otherwise; a table entry reads as its registered ten-character ID, and a locked reader buffer has NUL after ten data bytes |
| `CardRegistry.ProbeIdle` | MainBoard/MainBoard/main.c:395 | with no frame waiting, the probe changes nothing |
| `CardRegistry.ProbeMiss` | MainBoard/MainBoard/main.c:399-409 | an unregistered tag leaves the table unchanged, releases the reader and reports "not registered" |
| `CardRegistry.ProbeHit` | MainBoard/MainBoard/main.c:411-437 | a registered tag flips only the matched entry's status, reports 'a' iff the new status is adopted and 's' iff surrendered, uploads that entry's ID with the action, and releases the reader |
| `CardRegistry.ProbeTwiceRestores` | MainBoard/MainBoard/main.c:416-430 | probing the same scanned tag twice restores the table |
| `CardRegistry.ProbeCardReader` | MainBoard/MainBoard/main.c:393-439 | the probe updates the table and the reader lock and returns the outcome as `ProbeStep` says, leaving `ID` and `index` alone |
| `CardRegistry.CheckInUploadIsRequest` | MainBoard/MainBoard/main.c:435 | every check-in upload, for any registered tag and either action, sends the 34 bytes `AT+CIPSEND=34` announces, forming a Request-Line with an abs_path URI |
| `HttpUpload.SendCommand` | MainBoard/MainBoard/main.c:262-268 | `UART_ESP8266_cmd` sends the string up to its NUL, then CR LF |
| `HttpUpload.Request` | MainBoard/MainBoard/main.c:330-334 | the 30-character request equals the template except positions 9 to 18, which hold `rfid[0..9]`, and position 20, which holds the action; position 30 is NUL |
| `HttpUpload.BuildRequest` | MainBoard/MainBoard/main.c:330-334 | the fill loop produces exactly `Request` |
| `HttpUpload.UploadToServer` | MainBoard/MainBoard/main.c:329-342 | the bytes sent are the CIPSTART command, `AT+CIPSEND=34`, the request line and an empty line, each ended by CR LF |
| `HttpUpload.RequestText` | MainBoard/MainBoard/main.c:330-334 | the request line reads as `GET /add/<id>/<action> HTTP/1.0` when the ID and the action hold no NUL |
| `HttpUpload.AnnouncedLengthMatches` | MainBoard/MainBoard/main.c:337-340 | the bytes sent after `AT+CIPSEND=34` number exactly 34, the number written in that command |
| `HttpUpload.PayloadIsRequestLine` | MainBoard/MainBoard/main.c:330-340 | for an ID and action of `pchar` characters, the payload is an RFC 1945 Request-Line (method, SP, an abs_path URI of segments of `pchar`, SP, `HTTP/1.0`, CRLF) followed by the CRLF that ends an empty header list |
| `HttpUpload.BootReportIsRequest` | MainBoard/MainBoard/main.c:373 | the start-up report with ID `----------` and action 'b' sends the 34 bytes `AT+CIPSEND=34` announces, forming the Request-Line of `GET /add/----------/b HTTP/1.0` with an abs_path URI |
| `Esp8266.NextRow` | MainBoard/MainBoard/main.c:386 | the row index stays below 15 and wraps to 0 exactly after row 14 |
| `Esp8266.Received` | MainBoard/MainBoard/main.c:379-391 | one received character keeps the row index at most 14, the column index at most 51 and the buffer at 15 x 52 |
| `Esp8266.Run` | MainBoard/MainBoard/main.c:379-391 | the index bounds hold after any sequence of received characters |
| `Esp8266.LineCharsStored` | MainBoard/MainBoard/main.c:382-390 | up to 51 characters without CR LF, started at column 0, are stored in that row in order and the column follows them |
| `Esp8266.LineReceived` | MainBoard/MainBoard/main.c:383-388 | a line of at most 50 characters followed by CR LF is left in its row as a C string, with NUL written over the CR, and reception moves to column 0 of the next row; nothing else changes |
| `Esp8266.LongLineCut` | MainBoard/MainBoard/main.c:384-387 | at column 51 the line is cut: NUL overwrites column 50, the row reads as its first 50 characters, and reception moves to the next row |
| `Esp8266.FirstMatchingRow` | MainBoard/MainBoard/main.c:276-282 | the answer is the first of rows 0 to 13 whose string equals the searched one, or -1 exactly when none does; row 14 is never a candidate |
| `Esp8266.SearchConsumesReply` | MainBoard/MainBoard/main.c:278 | after a hit on a non-empty reply, the found row no longer matches (the empty reply still matches a cleared row) |
| `Esp8266.ReceivedLineIsFound` | MainBoard/MainBoard/main.c:275-283 | a reply received into one of rows 0 to 13 is found by the next search: at its own row, unless an earlier row already held it |
| `Esp8266.ClearedFindsNothing` | MainBoard/MainBoard/main.c:295-301 | after clearing, no non-empty reply is found, and the empty string matches row 0 |
| `Esp8266.Esp8266Buffer.constructor` | MainBoard/MainBoard/main.c:251-255 | the zero-initialised struct is well formed |
| `Esp8266.Esp8266Buffer.OnReceive` | MainBoard/MainBoard/main.c:379-391 | the interrupt handler updates the buffer and both indices exactly as `Received` does |
| `Esp8266.Esp8266Buffer.SearchForStr` | MainBoard/MainBoard/main.c:275-283 | returns the `FirstMatchingRow` answer; on a hit only the first character of that row is cleared, on a miss the buffer is unchanged |
| `Esp8266.Esp8266Buffer.Find` | MainBoard/MainBoard/main.c:285-293 | returns true exactly when `FirstMatchingRow` finds a row, with the same effect on the buffer as the search |
| `Esp8266.Esp8266Buffer.ClearBuffer` | MainBoard/MainBoard/main.c:295-301 | zeroes the first character of rows 0 to 13 and both indices, and nothing else |
| `RfReceiver.Received` | RFReceiver/RFReceiver/main.c:194-206 | one received byte keeps the index in [0, 16), with index 0 whenever the buffer is locked, and never writes `ID[16]` |
| `RfReceiver.Released` | RFReceiver/RFReceiver/main.c:189-192 | `RFID_ready` clears `done` and leaves `ID` and `index` as they were |
| `RfReceiver.Run` | RFReceiver/RFReceiver/main.c:194-206 | the invariant holds after any sequence of received bytes |
| `RfReceiver.LockedIgnoresBytes` | RFReceiver/RFReceiver/main.c:197 | while `done` is set, received bytes change nothing |
| `RfReceiver.FillsInOrder` | RFReceiver/RFReceiver/main.c:197-202 | after release, the k-th byte is stored at index k-1, and the buffer locks exactly when the 16th byte has been stored, with the index back at 0 |
| `RfReceiver.LocksAfterSize` | RFReceiver/RFReceiver/main.c:197-202 | bytes after the 16th are ignored, and the buffer holds the first 16 |
| `RfReceiver.AnyBytesDisplayed` | RFReceiver/RFReceiver/main.c:194-203 | any 16 bytes lock the buffer (no delimiter check), and the displayed tag is the ten bytes after the first one received |
| `RfReceiver.Receiver.constructor` | RFReceiver/RFReceiver/main.c:178-183 | the zero-initialised struct is well formed |
| `RfReceiver.Receiver.OnReceive` | RFReceiver/RFReceiver/main.c:194-206 | the interrupt handler updates `ID`, `index` and `done` exactly as `Received` does |
| `RfReceiver.Receiver.Ready` | RFReceiver/RFReceiver/main.c:189-192 | `RFID_ready` changes only `done` |
| `RfReceiver.Receiver.ShowTag` | RFReceiver/RFReceiver/main.c:247-262 | one pass of the main loop, once the buffer is locked, shows `ID[1..10]` in order and then releases the buffer |

## Left out

- The LCD driver (`lcd_init`, `lcd_write`, `lcd_char`, `lcd_instruction`, `lcd_string`): port bit-banging with delays. The text `probe_card_reader` and the RFReceiver main loop write to the LCD is not modelled, except the characters `ShowTag` returns.
- UART and timer set-up, the busy-waiting send and receive routines, the serial echo in both USART0 handlers, the beeper and the 125 kHz carrier: memory-mapped I/O. Each handler takes its received byte as a parameter.
- `_delay_ms` and `_delay_us` calls: timing only.
- `isConnected` and `UART_ESP8266_init`: retry loops driven by modem replies and delays. The searches they call are modelled, and so is the boot report `upload_to_server("----------", 'b')` through `UploadToServer`.
- Interrupt preemption and the `volatile` sharing between the handlers and the main loop: each handler invocation is one atomic method call.
- `Webserver/flaskapp.py`: HTTP routes, the database and login sessions on the server side.
- Bit-level decoding of the tag signal: both USART0 handlers receive whole bytes from a UART, so there is none in these files.
- `CardRegistry.CardTable.CardId` returns the bytes from offset 1 as a value, not a pointer; aliasing of the returned pointer is not modelled.
- `Bytes.MatchesAt` treats a string that would make `strcmp` read past the end of the ESP8266 buffer as no match. This needs a search string of more than 100 characters, and the firmware searches only for short replies.
- Signedness of `char`: the code compares bytes only for equality, so bytes are modelled as values 0 to 255.
