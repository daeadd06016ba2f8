# 1802 Membership Card loader: host-side core in Dafny

`mcard.py` moves an image between a PC and the 1802 Membership Card. An
Arduino sits in between on a serial line and speaks a small line protocol:

- every host command is one ASCII line ended by `"\n"`;
- most commands are answered by one character: `!` means accepted, `#` means
  the device reports an error; anything else, or nothing before the timeout,
  counts as a missing acknowledgement;
- `*D%04X` selects download mode at an address, `*U%04X` upload mode, and
  `*C` / `*R` reset and run the CPU;
- a download sends the image as lines of at most `MAX_HEX_PAIRS` = 16
  upper-case `%02X` pairs, one acknowledgement per line;
- an upload sends `<k` requests without acknowledgement, with k = min(16,
  remaining). Each request is answered by k two-character hex values.

Files on the PC are S-record, Intel HEX, raw binary, or the loader's own `.hex`
text: pairs of hex digits, with blank lines and `#` comment lines allowed.

This project models the loader's codec for its own format (`importHex`,
`dataToHexStrings`), the file-type dispatch (`getFileType`, `importFile`,
`exportImage`), the protocol (`sendCmd`, `rcvByte`, the four mode commands,
`readDataBytes`, `downloadAction`, `uploadAction`, `runAction`) and port
selection (`pickPort`, `openSerialPort`). It proves what these promise.

## Layout

| file | module | contents |
|---|---|---|
| `wrappers.dfy` | `Wrappers` | `Option`, `Result`, and `Outcome` (pass, or the error that ends the program) |
| `errors.dfy` | `Errors` | every fatal condition as a value, in place of `bailout` and uncaught exceptions |
| `hex.dfy` | `Hex` | hex digits, `%02X`, `%X`, zero padding |
| `text.dfy` | `Text` | `strip`, `lower`, `in`, `%d` over `seq<char>`, and two sequence lemmas |
| `hex_file.dfy` | `HexFile` | `readlines`, `importHex`, `dataToHexStrings` and their round trip |
| `file_types.dfy` | `FileTypes` | `getFileType`, `importFile`, `exportImage` |
| `protocol.dfy` | `Protocol` | command texts, and the exchanges as pure functions of the characters the Arduino sends back |
| `ports.dfy` | `Ports` | `pickPort` |
| `loader.dfy` | `Loader` | class `Session`, the serial link, with the actions as methods over it |

`Loader.Session` is the serial link:

- `trace` is everything written, one entry per write;
- `input` holds the characters the Arduino has sent and nobody has read yet;
- `port` is the open port or `None`;
- `noaction` and the other command-line options are constants.

`read(n)` takes at most n characters from `input`. When fewer are waiting it
takes what is there, possibly nothing; that is how a timeout shows.

Each method changes the session step by step, as the source does. It is proved
against a pure function of `Protocol`:

- `CommandSent` for one `sendCmd`;
- `CommandsSent` for a run of acknowledged commands;
- `BytesRead` for `readDataBytes`;
- `ChunksRead` and `UploadExchange` for `uploadAction`.

The lemmas then state what the source promises about those functions. A failed
exchange ends the run: the source calls `bailout`, and the functions stop
producing output at the first failure. `FailureSticks`, `BytesReadSticks` and
`ChunksSticks` state this.

### Behaviour of mcard.py a reader may not expect

- `%04X` is four digits only for 0 <= addr < 0x10000. A wider address gets more
  digits. A negative one gets `-` and at least three digits of its magnitude.
  `Hex04` models all three cases.
- `int(s, 16)` in `rcvByte` accepts surrounding whitespace and a sign, so one
  of `read(2)`'s results can be `-F`, that is -15. `bytearray.append` then
  raises. The model reports this as `ByteOutOfRange`.
- `rcvByte` accepts a reply cut short to one character: when `read(2)` returns
  only `A`, the byte is 0x0A and no error is raised.
- A reply that `int()` refuses (a timeout included, which reads `""`) is
  `MalformedByteRead`.
- An automatic port choice that finds no port and one that finds several end
  with the same message, "Unable to automatically choose a port"; the model
  calls this error `NoPortChosen`. A blank name picked by `pickPort` is also refused, by `if port:`.
- `getFileType`'s pattern `.*\.(.+)$` with `re.S` takes the text after the
  last `.` that has at least one character after it. So `a.hex.bak` has no type
  and `a.b.hex` is `hex`.
- `uploadAction` under `--noaction` returns before opening anything. It
  writes nothing, reads nothing and exports nothing.

## Model

| member | source | states |
|---|---|---|
| `FileTypes.GetFileType` | mcard.py:323-344 | no extension gives None; a format is returned only when the lower-cased extension is that format's |
| `FileTypes.TypeNameInjective` | mcard.py:321-336 | the four tag strings getFileType returns are distinct, so each names one format |
| `FileTypes.GetFileTypeSome` | mcard.py:323-339 | a name gets format f exactly when the text after its last usable `.`, lower-cased, is f's extension (`s19`, `bin`, `hex`, `ihex`) |
| `FileTypes.GetFileTypeOfExtension` | mcard.py:324-339 | for `base.ext` with no `.` inside ext, only `lower(ext)` decides the type |
| `FileTypes.GetFileTypeNoDot` | mcard.py:324-344 | a name without a usable `.` has no type |
| `FileTypes.GetFileTypeIgnoresCase` | mcard.py:327 | the case of the extension does not change the type |
| `FileTypes.FormatOfExtension` | mcard.py:329-336 | a format is returned only for that format's own extension |
| `FileTypes.FormatOfExtensionInverse` | mcard.py:329-336 | each of the four tags is returned for its own extension and for nothing else |
| `FileTypes.Extension` | mcard.py:324-327 | no extension exactly when no `.` stands before the last character; otherwise it is the text after the last such `.` |
| `FileTypes.SRecordExample` | mcard.py:329-330 | `blink.S19` is an S-record file |
| `FileTypes.LastExtensionExample` | mcard.py:324 | `a.b.hex` is a `.hex` file: only the last extension counts |
| `FileTypes.RenamedExample` | mcard.py:324-344 | `a.hex.bak` has no type |
| `FileTypes.Imported` | mcard.py:301-316 | loading fails exactly when the name has no type, and then with "Unknown file type"; a `.hex` file is never handed to bincopy |
| `FileTypes.ImportedByType` | mcard.py:306-314 | `.hex` files go through importHex, the other three formats to their bincopy decoder |
| `FileTypes.ImportFile` | mcard.py:301-316 | the dispatch computes `Imported`: importHex's bytes for `.hex`, the format tag for the others, `UnknownFileType` otherwise |
| `FileTypes.ExportedImage` | mcard.py:348-358 | export fails with "Invalid export format" exactly for a format other than `srec`, `ihex`, `hex`; `hex` writes the loader's own text |
| `FileTypes.ExportImage` | mcard.py:348-358 | the dispatch computes `ExportedImage`, rendering `hex` with dataToHexStrings |
| `FileTypes.HexExportImport` | mcard.py:301-316 | a `hex` export, read back from a `.hex` file, gives the original bytes |
| `HexFile.ImportHex` | mcard.py:256-273 | the loop over the lines yields `LinesBytes(lines)`: the pair values of every kept line, in file order |
| `HexFile.LinesBytes` | mcard.py:262-271 | the bytes every line adds, in file order; `LinesBytesAppend`, `SkippedLine` and `NothingKept` state its properties |
| `HexFile.SkippedLine` | mcard.py:264-267 | a line that is empty or starts with `#` once stripped adds nothing, wherever it stands |
| `HexFile.LinesBytesAppend` | mcard.py:263-271 | bytes are appended in file order, with no addresses: two parts of a file read as the concatenation |
| `HexFile.FindPairs` | mcard.py:268 | `re.findall` of two adjacent hex digits, scanning left to right and resuming after each match; `FindPairsEmpty` and `FindPairsSeparator` state where matches fall |
| `HexFile.PairValues` | mcard.py:269-271 | one byte per match |
| `HexFile.LineBytes` | mcard.py:264-271 | what one line adds: nothing when it is blank or a comment once stripped, otherwise the values of its pairs; `SkippedLine` and `LastLineBytes` state this |
| `HexFile.NothingKept` | mcard.py:264-271 | a file of blank, comment or digit-less lines gives an empty image |
| `HexFile.FindPairsEmpty` | mcard.py:268 | a line yields no bytes exactly when no two hex digits are adjacent in it, so a lone digit adds nothing |
| `HexFile.FindPairsSeparator` | mcard.py:268 | a non-hex character splits the line: pairs never span it |
| `HexFile.FindPairsOfHexString` | mcard.py:268-270 | the pairs found in a `%02X` rendering read back as the rendered bytes |
| `HexFile.ImportExample` | mcard.py:262-271 | the lines `DEAD\n` and `BEEF` give DE AD BE EF |
| `HexFile.TwoHexLines` | mcard.py:262-271 | any two 4-digit lines give four bytes, in order |
| `HexFile.HexDecodeExample` | mcard.py:268-270 | four hex digits, upper or lower case, give their two byte values |
| `HexFile.ReadLines` | mcard.py:261 | `readlines` cuts the text into non-empty lines that put back together give the text |
| `HexFile.ReadLinesEndings` | mcard.py:261 | every line but the last ends in `"\n"` |
| `HexFile.ReadLinesNoInner` | mcard.py:261 | no line holds a `"\n"` before its last character, so the cuts fall right after each `"\n"` and nowhere else |
| `HexFile.HexText` | mcard.py:277-287 | dataToHexStrings' text has at least two characters per byte; `HexTextLength` gives the exact count |
| `HexFile.DataToHexStrings` | mcard.py:277-287 | the loop computes `HexText(data)`; its invariant ties the buffer to the bytes seen and the whole lines done |
| `HexFile.Advance` | mcard.py:280-284 | one pass adds the byte's pair, and a `"\n"` exactly when a line reaches 16 bytes |
| `HexFile.HexTextLength` | mcard.py:277-287 | the text has 2N + N/16 characters |
| `HexFile.HexTextLayout` | mcard.py:280-284 | on each 33-character line, column 32 is the `"\n"` and every other character is an upper-case hex digit: no `"\n"` anywhere else |
| `HexFile.HexTextPairAt` | mcard.py:279-281 | byte 16·line + col is at line `line`, column 2·col: input order is kept |
| `HexFile.HexTextAppend` | mcard.py:279-284 | rendering whole lines and then the rest is rendering the whole |
| `HexFile.HexTextRoundTrip` | mcard.py:256-287 | importHex's line rules applied to the lines of dataToHexStrings' text give back the bytes |
| `Hex.HexPair` | mcard.py:281 | `%02X` is two upper-case digits that read back as the byte |
| `Hex.HexString` | mcard.py:281 | the pairs of a byte run, one after the other: two characters per byte; `HexStringAt` and `HexStringAppend` state where each byte lands |
| `Hex.PairValue` | mcard.py:270 | `string.atoi(num, 16)` of one matched pair; `Protocol.ParseFieldPair` states that it is what `int(s, 16)` gives for the pair |
| `Hex.HexStringAt` | mcard.py:281 | byte i of a run of pairs is at characters 2i and 2i+1 |
| `Hex.HexStringAppend` | mcard.py:281 | rendering splits over concatenation |
| `Hex.HexDigits` | mcard.py:208 | `%X` is a non-empty run of upper-case digits whose value is n |
| `Hex.ZeroPad` | mcard.py:208 | zero padding reaches the width and keeps the value |
| `Protocol.Hex04Address` | mcard.py:206-213 | an address below 0x10000 is sent as exactly four upper-case digits with its value |
| `Protocol.Hex04` | mcard.py:208 | `%04X` of a non-negative n is at least four upper-case digits with value n; of a negative n, `-` and at least three digits of its magnitude; from 0x1000 up it is `%X` itself, with no padding |
| `Protocol.ModeCommands` | mcard.py:206-213 | `*D` and `*U` are followed by the same four digits, which spell the address |
| `Protocol.DownloadModeCmd` | mcard.py:206-208 | `"*D%04X" % addr`; `ModeCommands` and `CommandsDistinct` state its prefix and digits |
| `Protocol.UploadModeCmd` | mcard.py:211-213 | `"*U%04X" % addr`; `ModeCommands` and `CommandsDistinct` state its prefix and digits |
| `Protocol.CommandsDistinct` | mcard.py:206-241 | setResetMode sends `*C` and setRunMode `*R`; the four mode commands start with `*` and differ from each other for any addresses, and the read request starts with `<` |
| `Protocol.ReadRequestCmd` | mcard.py:241 | `"<%d" % count`; `ReadRequestDecimal` states its form |
| `Protocol.ReadRequestDecimal` | mcard.py:241 | the read request is `<` followed by decimal digits that read back as the count |
| `Protocol.CommandSent` | mcard.py:180-193 | one `sendCmd` writes `cmd + "\n"`; without ack it reads nothing and passes; with ack it uses up one character and passes exactly on `!`, fails with "Error returned" on `#`, and with "Timeout waiting for ACK" otherwise, including on no reply |
| `Protocol.AckOutcome` | mcard.py:186-192 | the reply passes exactly when it is `!`; otherwise the error is "Error returned" for `#` and "Timeout waiting for ACK" for anything else |
| `Protocol.CommandsSent` | mcard.py:180-193 | a run of sendCmd calls writes the lines of a prefix of the commands, and all of them when every command is accepted |
| `Protocol.Acked` | mcard.py:185-188 | a command answered by `!` passes, and only the `!` is used up |
| `Protocol.ReplyTaken` | mcard.py:185 | `read(1)` takes the first waiting character |
| `Protocol.AllAcked` | mcard.py:180-193 | with a `!` for each, all commands are written in order and one reply each is used up |
| `Protocol.FirstRefusal` | mcard.py:185-192 | the first reply that is not `!` stops the run right after the command it answers, with that command's error |
| `Protocol.FailureSticks` | mcard.py:190-192 | after a failure nothing more is sent |
| `Protocol.TwoCommands` | mcard.py:463-465 | of two commands, the second is sent only if the first is accepted |
| `Protocol.OneCommand` | mcard.py:180-193 | a run of one command is that command's exchange |
| `Protocol.LinesAt` | mcard.py:184 | line i written carries command i |
| `Protocol.DataLines` | mcard.py:399-411 | the lines the download loop flushes: 16 pairs each, then the rest; `DataLinesCount`, `DataLinesAt`, `DataLinesLength` and `DataLinesConcat` state their number, contents and lengths |
| `Protocol.DownloadCommands` | mcard.py:395-411 | the download sends 1 + ceil(N/16) commands |
| `Protocol.DataLinesCount` | mcard.py:399-411 | ceil(N/16) data lines; none for an empty image |
| `Protocol.DataLinesAt` | mcard.py:402-411 | data line i is the hex of bytes 16i up to 16i+16, or to the end for the last |
| `Protocol.DataLinesLength` | mcard.py:402-411 | every line but the last has 32 characters; the last has 2·(N mod 16), or 32 when 16 divides N |
| `Protocol.DataLinesConcat` | mcard.py:402-411 | the lines put together are the hex of the whole image, in order |
| `Protocol.DataLinesNextLine` | mcard.py:405-408 | sixteen more bytes add one full line |
| `Protocol.DataLinesLastLine` | mcard.py:410-411 | the 1 to 15 bytes left after the full lines make one last line |
| `Protocol.DataLinesAppend` | mcard.py:402-411 | splitting the image after whole lines splits the lines |
| `Protocol.DownloadStep` | mcard.py:395-408 | after `*D` and k lines, sixteen more bytes add exactly one line to what is sent |
| `Protocol.DownloadRest` | mcard.py:395-411 | after `*D` and k lines, what is still to be sent is the lines of the rest of the image |
| `Protocol.DownloadExample` | mcard.py:395-411 | 20 bytes at address 0x0100: `*D0100`, a 32-character line, an 8-character line |
| `Protocol.ReadRequests` | mcard.py:437-445 | every request asks for 1 to 16 bytes |
| `Protocol.ReadRequestsAt` | mcard.py:437-445 | request n is made exactly when more than 16n bytes are asked for, and asks for min(16, what remains) |
| `Protocol.ReadRequestsShape` | mcard.py:437-445 | ceil(size/16) requests of 1 to 16 bytes, all but the last of 16; none for size <= 0 |
| `Protocol.ReadRequestsSum` | mcard.py:437-445 | the requests add up to `--size`, or to 0 for a size <= 0 |
| `Protocol.ReadRequestsExample` | mcard.py:437-445 | 40 bytes are requested as 16, 16, 8 |
| `Protocol.ParseField` | mcard.py:200 | `int(s, 16)` of a non-empty run of hex digits is their value |
| `Protocol.Received` | mcard.py:197-202 | a reply `int()` refuses is `MalformedByteRead`; a reply of at most two characters that parses lies in -15..255; two hex digits give their byte |
| `Protocol.ByteRead` | mcard.py:243-245 | one more `rcvByte` appends at most one byte, and exactly one when it passes |
| `Protocol.ShortReplyExample` | mcard.py:198-200 | a one-character reply `A` to a one-byte request gives the byte 0x0A with no error |
| `Protocol.ParseFieldPair` | mcard.py:197-202 | two hex digits parse as the byte they spell |
| `Protocol.ParseFieldRange` | mcard.py:197-202 | whatever `read(2)` returns parses, if at all, to a value in -15..255 |
| `Protocol.BytesReadNext` | mcard.py:242-244 | one more `rcvByte` after good ones: its error, a value out of range, or one more byte appended |
| `Protocol.BytesReadSticks` | mcard.py:242-244 | once a read has failed, no later read is made |
| `Protocol.BytesReadHex` | mcard.py:240-246 | reading count values from their `%02X` text gives those bytes and uses up two characters each |
| `Protocol.BytesRead` | mcard.py:240-246 | never more values than asked for, and exactly count when all reads succeed |
| `Protocol.ChunksRead` | mcard.py:438-445 | the requests written are those of a prefix of the counts; on success all of them, with as many bytes as the counts add up to |
| `Protocol.UploadExchange` | mcard.py:433-445 | `*U` is written first; on success the requests for `--size` follow, and exactly `--size` bytes (none for size <= 0) are returned |
| `Protocol.ChunksSticks` | mcard.py:438-445 | once a request has failed, no further request is sent |
| `Protocol.ChunksReadHex` | mcard.py:438-445 | when the replies are the hex of the data, the chunks put together are the data and one `<k` line is written per request |
| `Protocol.UploadRoundTrip` | mcard.py:433-445 | with `!` for `*U` and then the hex of N bytes, the upload writes `*U` then the requests for N, and returns the N bytes |
| `Protocol.UploadAcked` | mcard.py:433-445 | once `*U` is accepted, the upload is the read requests on what follows the `!` |
| `Protocol.UploadModeRefused` | mcard.py:433 | a refused `*U` ends the upload before any request |
| `Ports.PickPort` | mcard.py:115-133 | the loop returns `PickedPort(names)`: the only name without "Bluetooth", else None |
| `Ports.PickedPortUnique` | mcard.py:115-133 | the single candidate is picked |
| `Ports.PickedPortNone` | mcard.py:115-133 | no candidate, or two, gives None |
| `Ports.PickedPort` | mcard.py:115-133 | a picked name is listed and does not contain "Bluetooth" |
| `Ports.Candidates` | mcard.py:118-124 | the names pickPort considers are listed ones without "Bluetooth" |
| `Ports.CandidatesAppend` | mcard.py:117-121 | the candidates of two lists are those of each, in order |
| `Loader.OpenedPort` | mcard.py:160-172 | an open port stays; a chosen port is one serial can open, or the one already open |
| `Loader.OpenTwice` | mcard.py:162-164 | opening again keeps the port chosen the first time |
| `Loader.OpenedPortPicked` | mcard.py:167-172 | without `--port`, opening succeeds exactly when pickPort finds a usable name; no pick gives "Unable to automatically choose a port" |
| `Loader.SentMore` | mcard.py:180-193 | one more acknowledged command after accepted ones extends the run by its exchange |
| `Loader.SentStop` | mcard.py:188-191 | after a refusal the state is the final state of any longer run |
| `Loader.DownloadRefused` | mcard.py:405-407 | a refused data line ends the download with nothing more of the image sent |
| `Loader.DownloadLine` | mcard.py:405-408 | a sent full line extends the trace to the lines of the bytes up to its end |
| `Loader.DownloadLast` | mcard.py:410-411 | sending the partial rest completes the trace of the whole image |
| `Loader.ReadMore` | mcard.py:442-444 | one more request after good ones extends the upload by its reads |
| `Loader.ReadStop` | mcard.py:442 | after a failed request the state is the final state of any longer upload |
| `Loader.UploadFrom` | mcard.py:433-445 | an accepted `*U` followed by the requests gives the trace, rest and outcome of `UploadExchange` |
| `Loader.UploadHexExport` | mcard.py:421-459 | an upload of hex replies exported as `hex` is dataToHexStrings of the bytes, which importHex reads back as them |
| `Loader.AppendEach` | mcard.py:443-444 | appending a chunk byte by byte gives the old bytes followed by the chunk |
| `Loader.Session.Read` | mcard.py:198 | `read(n)` takes the first min(n, waiting) characters from the input, and writes nothing |
| `Loader.Session.OpenNamedPort` | mcard.py:142-154 | a name serial can open becomes the port; any other fails with `PortOpenFailed` and leaves the port closed |
| `Loader.Session.OpenSerialPort` | mcard.py:160-172 | the port becomes `OpenedPort(...)`: the open one, else `--port`, else pickPort's; a failure leaves everything unchanged |
| `Loader.Session.SendCmd` | mcard.py:180-193 | under `--noaction` nothing changes; otherwise trace, input and outcome move by `CommandSent` |
| `Loader.Session.RcvByte` | mcard.py:197-202 | at most two characters are taken and parsed by `int(s, 16)`; nothing is written |
| `Loader.Session.SetDownloadMode` | mcard.py:206-208 | sends `*D` + `%04X` of the address, acknowledged |
| `Loader.Session.SetUploadMode` | mcard.py:211-213 | sends `*U` + `%04X` of the address, acknowledged |
| `Loader.Session.SetResetMode` | mcard.py:219-221 | sends `*C`, acknowledged |
| `Loader.Session.SetRunMode` | mcard.py:227-229 | sends `*R`, acknowledged |
| `Loader.Session.RunAction` | mcard.py:463-465 | `*C` then `*R`, the second only if the first is accepted |
| `Loader.Session.ReadDataBytes` | mcard.py:240-246 | writes `<count` with no ack read, then count `rcvByte` calls as `BytesRead` says; the first failure stops it |
| `Loader.Session.SendLine` | mcard.py:180-193 | one acknowledged line after accepted ones extends the run |
| `Loader.Session.DownloadImage` | mcard.py:395-411 | the trace grows by exactly the run of `*D` and the data lines, stopping at the first refusal |
| `Loader.Session.SendFullLine` | mcard.py:405-408 | a full line is sent; on refusal the download is over |
| `Loader.Session.AddByte` | mcard.py:402-408 | one pass of the loop keeps the loop invariant, flushing exactly at 16 pairs |
| `Loader.Session.SendDataLines` | mcard.py:399-411 | the loop sends exactly the data lines of the image, stopping at the first refusal |
| `Loader.Session.SendRest` | mcard.py:410-411 | a non-empty rest is sent as the last line; an empty one sends nothing |
| `Loader.Session.DownloadAction` | mcard.py:381-411 | opens the port unless `--noaction`, stopping on failure; a file of unknown type sends nothing; otherwise the trace is the run of `*D` and the image's lines |
| `Loader.Session.ReadChunk` | mcard.py:442-444 | one request and its reads extend the upload, or end it |
| `Loader.Session.ReadImage` | mcard.py:437-445 | the loop on `remaining` makes exactly the requests `ReadRequests(--size)`, with their reads |
| `Loader.Session.UploadAction` | mcard.py:421-459 | nothing under `--noaction`; otherwise opens the port, then trace and input move by `UploadExchange` and the result is the export of the bytes read, or the first error |

## Left out

- Real serial I/O is not modelled: pyserial, baud rate, timeouts, the reset delay after opening and the delay after each command. The port is the `trace`/`input` pair of `Loader.Session`, and a timeout is a short read.
- The bincopy library is not modelled: the S-record, Intel HEX and binary decoders and encoders. A non-`.hex` load is `Loaded.Library(format)`, and `as_binary()` of such an image is the `decoded` parameter of `DownloadAction`. `srec` and `ihex` exports are `Exported.LibraryText(format, bytes)`.
- `importHex` and `exportImage` get the file's lines and return the written text. Opening, reading, writing and closing files is left out. So is `uploadAction` creating and truncating its destination before `exportImage` can fail.
- `getFileType`'s content-sniffing stub reads one line and discards it. Only its `None` result is modelled.
- `terminalAction`, `dumpImage`, `assemble`, `main`, option parsing, logging and `listPorts` are outside the core.
- `bailout`'s exit is an error result (`Errors.Error`, `Outcome.Fail`), not a process exit.
- The elapsed-time report at the end of `downloadAction` uses floating-point wall-clock time and is not modelled.
- `readSRecordFile`, `readImageFile`, `ximportFile` and `writeDataByte` are stubs or are never called.
- The `else bailout(...)` branch of `_openSerialPort` cannot be reached, because `serial.Serial` raises instead of returning a false value. Failing to open is modelled as `PortOpenFailed`.
- A timeout in the middle of a reply is not modelled. The unread replies are one string, so `read(n)` returns fewer than n characters only once every reply has been used up. In mcard.py a `read(2)` in the middle of an upload can time out with part of a reply, which shifts every later byte by the characters that arrive late (mcard.py:198-200, mcard.py:442).
- `Text.Lower` lower-cases ASCII letters only, as `str.lower()` does on a Python 2 byte string.
- Loader.Session.ReadImage: on failure the returned bytes are unconstrained. The source exits there and never uses them.
- Loader.Session.UploadAction: on failure it returns only the error. The bytes read before the failure are not exposed.
