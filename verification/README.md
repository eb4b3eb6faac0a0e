# SD-card boot loader firmware, modelled in Dafny

The loader firmware of the ZPU-based OCMS host (`rtl/loader/firmware/boot.c`)
resets the main core, then releases it while keeping the SD card, looks for
the file `82.ROM` on a FAT volume and streams it sector by sector into the
core through the `BOOTDATA` host register, drawing a progress bar and printing status lines on
the on-screen display. `main()` retries the boot for ever and prints
"Loading BIOS done" or "Loading BIOS failed" after every attempt.

This project models that core as pure functions that produce a trace of
events, with methods that follow the C code statement by statement and are
proved equal to the functions:

- `Host` — the register offsets and control bits the loader writes.
- `Words` — the 32-bit words of the sector buffer, the four bytes written for
  each word and their order relative to the word's value; the buffer's
  endianness is a parameter.
- `Display` — `OSD_Puts`: the characters up to the first NUL.
- `Storage` — the answers of the SPI driver and the FAT library, given up
  front (`Card`, `FileImage`, `ReadResult`), and the sector count.
- `Trace` — events (`HostWrite`, `Osd`, `ProgressBar`, `Extern`) and the
  projections of a trace: bytes written to `BOOTDATA`, calls made, texts shown,
  values written to any other register.
- `Progress` — the scale loop `bits = bitlength(filesize) - 9`.
- `Stream` — the `while (filesize > 0)` transfer loop, its reference
  definitions and the method `Transfer` that runs it like the C code.
- `Loader` — `Boot()` as a whole and its failure paths; `BootAttempt` runs it
  like the C code.
- `Firmware` — `main()`: start-up writes and the endless retry loop, as the
  finite prefix after any number of attempts.

Facts of the code worth keeping in mind:

- The scale is the bit length of the size minus 9, so 512 bytes give 1 and
  1024 bytes give 2 (`Progress.ScaleExamples`).
- Each word goes out most significant byte first relative to its value. That
  is the buffer's own byte order on a big-endian target such as the ZPU, and
  the reversed order on a little-endian one (`Words.LoadWord`).
- A final chunk whose length is not a multiple of 4 is rounded up, so up to 3
  bytes past the declared size are written (`Loader.BootShortTail`).
- The answer to a read is looked up by the progress counter. `Boot()` starts
  the counter at 0, so there the k-th answer of a `FileImage` answers the k-th
  `FileRead` call (`Stream.StreamFrom`).

## Model

| member | source | states |
|---|---|---|
| `Display.Puts` | rtl/loader/firmware/boot.c:23-28 | the output is a NUL-free prefix of the string that stops only at a NUL or at the end |
| `Display.PutsUnique` | rtl/loader/firmware/boot.c:23-28 | any NUL-free prefix that stops only at a NUL is exactly what is emitted |
| `Display.PutsWholeMessage` | rtl/loader/firmware/boot.c:23-28 | a message without NUL is emitted in full |
| `Firmware.MessagesShownWhole` | rtl/loader/firmware/boot.c:46-137 | every message the firmware prints reaches the display whole |
| `Words.WordBytes` | rtl/loader/firmware/boot.c:83-86 | definition of the four bytes written for a word (always four); characterised by `Words.WordBytesAreDigits`, `Words.PackWordBytes` and `Words.WordBytesInjective` |
| `Progress.Scale` | rtl/loader/firmware/boot.c:68-74 | definition of the scale as bit length minus 9; characterised by `Progress.ComputeScale`, `Progress.ScaleMonotonic` and `Progress.SectorCountFitsScale` |
| `Stream.StreamFrom` | rtl/loader/firmware/boot.c:76-100 | reference definition of the sector loop from a given size and counter; characterised by `Stream.StreamLoadedIff`, `Stream.StreamAllRead`, `Stream.StreamReadFails` and `Stream.StreamTexts`, and run by `Stream.Transfer` |
| `Loader.Opening` | rtl/loader/firmware/boot.c:46-60 | reference definition of what `Boot()` does up to `FileOpen`; characterised by `Loader.OpeningCalls` and `Loader.OpeningTexts` |
| `Loader.Boot` | rtl/loader/firmware/boot.c:41-105 | reference definition of `Boot()`; characterised by `Loader.BootLoadedIff`, `Loader.BootLoads`, `Loader.BootReadFails`, `Loader.BootEarlyFailure` and `Loader.BootTexts`, and run by `Loader.BootAttempt` |
| `Firmware.Attempt` | rtl/loader/firmware/boot.c:130-137 | reference definition of one pass of the loop; characterised by `Firmware.AttemptsStatusLines` and run by `Firmware.Pass` |
| `Firmware.Run` | rtl/loader/firmware/boot.c:107-138 | reference definition of `main()` after a number of passes; characterised by `Firmware.RunProperties` and `Firmware.RunExtends`, and run by `Firmware.MainLoop` |
| `Words.PackWordBytes` | rtl/loader/firmware/boot.c:84-90 | reassembling the four written bytes gives back the word's 32-bit pattern |
| `Words.WordBytesAreDigits` | rtl/loader/firmware/boot.c:84-90 | the bytes written for a word are its base-256 digits, most significant first, each in 0..255, also for negative words |
| `Words.WordBytesInjective` | rtl/loader/firmware/boot.c:84-90 | different words never give the same four bytes |
| `Words.SplitWord` | rtl/loader/firmware/boot.c:84-88 | `t4, t3, t2, t1` are the word's base-256 digits, most significant first, and reassemble into its 32-bit pattern |
| `Words.LoadWord` | rtl/loader/firmware/boot.c:80-90 | a 4-byte group of the buffer read as a word goes out in buffer order on a big-endian target and reversed on a little-endian one |
| `Progress.ComputeScale` | rtl/loader/firmware/boot.c:64-74 | the loop ends with `c == 0` and `bits` equal to bit length minus 9: -9 for an empty file, otherwise 2^(bits+8) <= size < 2^(bits+9) |
| `Progress.BitLengthBounds` | rtl/loader/firmware/boot.c:68-73 | the highest set bit of a positive size is bit `BitLength - 1` |
| `Progress.ScaleMonotonic` | rtl/loader/firmware/boot.c:68-74 | a larger file never gets a smaller scale |
| `Progress.ScaleExamples` | rtl/loader/firmware/boot.c:68-74 | scale -9 for 0 bytes, 0 for 511, 1 for 512 and 1023, 2 for 1024 |
| `Progress.SectorCountFitsScale` | rtl/loader/firmware/boot.c:68-77 | for a file of a sector or more the number of progress calls lies between 2^(bits-1) and 2^bits |
| `Storage.SectorCount` | rtl/loader/firmware/boot.c:76-99 | the number of iterations of a loop that subtracts 512 while positive is the ceiling of size / 512 |
| `Stream.ValidBytes` | rtl/loader/firmware/boot.c:81 | the bytes that count in an iteration are `min(remaining, 512)` |
| `Stream.GroupCount` | rtl/loader/firmware/boot.c:81 | the inner loop runs ceil(n / 4) times |
| `Stream.SectorBytes` | rtl/loader/firmware/boot.c:80-91 | an iteration writes 4 * ceil(min(r, 512) / 4) bytes: 512 for a full sector, up to 3 more than the valid bytes on a tail, exactly the valid bytes iff their number is a multiple of 4 |
| `Stream.WriteSector` | rtl/loader/firmware/boot.c:80-91 | the inner loop writes, word by word in buffer order, the four bytes of each word with t4 first and t1 last |
| `Stream.WordWrites` | rtl/loader/firmware/boot.c:84-90 | the port writes of one word are BOOTDATA = t4, t3, t2, t1 |
| `Stream.Transfer` | rtl/loader/firmware/boot.c:76-100 | the C loop, entered with any counter, yields the return value and trace of the reference definition; reads are answered by the counter's entry of the answers |
| `Stream.IterationsShape` | rtl/loader/firmware/boot.c:77-97 | in the reference call sequence iteration k draws the bar with counter c + k, then reads, then advances |
| `Stream.StreamLoadedIff` | rtl/loader/firmware/boot.c:76-101 | the transfer completes iff every one of its ceil(size / 512) reads succeeds |
| `Stream.StreamAllRead` | rtl/loader/firmware/boot.c:76-101 | with all reads succeeding: ceil(size / 512) iterations of bar, read, advance with counters c, c+1, ...; no text; 4 * ceil(size / 4) bytes, namely the sectors' words in order, each most significant byte first |
| `Stream.StreamReadFails` | rtl/loader/firmware/boot.c:76-96 | a read failing on iteration k: return 0; exactly the 512 * k bytes of iterations 0..k-1 written; bar drawn and read made for iteration k but no `FileNextSector` for it; "Read failed" shown |
| `Stream.StreamTexts` | rtl/loader/firmware/boot.c:76-101 | the transfer shows "Read failed" exactly when it fails, and nothing else |
| `Stream.StreamWritesOnlyData` | rtl/loader/firmware/boot.c:76-100 | the transfer writes no host register but BOOTDATA |
| `Loader.OpeningCalls` | rtl/loader/firmware/boot.c:48-60 | an open image is reached through `spi_init`, `FindDrive`, `sd_ishc`, `IsFat32`, `FileOpen("82      ROM")`, in that order |
| `Loader.OpeningTexts` | rtl/loader/firmware/boot.c:46-59 | "Initializing SD card", "SDHC card detected" iff the card is high-capacity, "Fat32 detected" iff the volume is FAT32, then "Trying 82.ROM" |
| `Loader.SpiFails` | rtl/loader/firmware/boot.c:46-104 | a failing `spi_init` returns 0 after the first message, with no other call and no port write |
| `Loader.DriveMissing` | rtl/loader/firmware/boot.c:48-51 | a failing `FindDrive` returns 0 right after it, with no port write |
| `Loader.ImageMissing` | rtl/loader/firmware/boot.c:59-104 | a failing `FileOpen` returns 0 right after it, with no port write |
| `Loader.BootEarlyFailure` | rtl/loader/firmware/boot.c:48-104 | a failure before the file is open returns 0 with zero BOOTDATA writes and no progress bar or `FileRead`: the calls are a prefix of those up to `FileOpen` |
| `Loader.BootLoadedIff` | rtl/loader/firmware/boot.c:41-105 | `Boot()` returns 1 iff the card initialises, the drive is found, the image opens and all of its ceil(size / 512) reads succeed |
| `Loader.BootLoads` | rtl/loader/firmware/boot.c:63-101 | all reads succeeding: return 1, the whole image streamed most significant byte first and padded to a multiple of 4, one bar per sector with counters 0, 1, ... and the file's scale, "Loading 82.ROM" shown |
| `Loader.BootReadFails` | rtl/loader/firmware/boot.c:76-96 | a read failing on sector k: return 0 after the k sectors before it, bar and read for sector k, "Read failed" last |
| `Loader.BootEmptyImage` | rtl/loader/firmware/boot.c:76-101 | an empty image returns 1 with no port write, progress bar or read |
| `Loader.BootTexts` | rtl/loader/firmware/boot.c:46-96 | the messages of one attempt: the first line alone if card or drive fail, the opening's, "Loading 82.ROM" once open, "Read failed" iff a read fails |
| `Loader.BootWritesOnlyData` | rtl/loader/firmware/boot.c:41-105 | `Boot()` writes no host register but BOOTDATA |
| `Loader.BootKilobyte` | rtl/loader/firmware/boot.c:64-100 | a 1024-byte image: scale 2, bars with counters 0 and 1, 1024 port writes |
| `Loader.BootShortTail` | rtl/loader/firmware/boot.c:81-91 | a 601-byte image writes 604 bytes, three past the end of the file |
| `Loader.BootAttempt` | rtl/loader/firmware/boot.c:41-105 | the C function returns 0 or 1 and does exactly what `Boot` describes |
| `Firmware.StartupWrites` | rtl/loader/firmware/boot.c:110-112 | CTRL gets RESET then SDCARD, MOUSEBUTTONS gets 3 |
| `Firmware.BootShowsNoStatus` | rtl/loader/firmware/boot.c:46-96 | no message of `Boot()` is a status line |
| `Firmware.AttemptsStatusLines` | rtl/loader/firmware/boot.c:129-138 | after each `Boot()` exactly one status line: "done" iff it returned 1, "failed" otherwise |
| `Firmware.RunProperties` | rtl/loader/firmware/boot.c:110-138 | CTRL is written RESET then SDCARD before the first `Boot()` and never again; MOUSEBUTTONS gets 3 once; one status line per attempt, matching its result |
| `Firmware.RunExtends` | rtl/loader/firmware/boot.c:129-138 | the loop never takes anything back: for any further passes the run so far is a prefix of the longer run, which is longer by at least one event per pass |
| `Firmware.Pass` | rtl/loader/firmware/boot.c:130-137 | one pass of the C loop is `Boot()` followed by its status line |
| `Firmware.MainLoop` | rtl/loader/firmware/boot.c:107-138 | the C `main()` after any number of passes produces the reference run |

## Left out

- `PS2Init`, `EnableInterrupts`, `PS2Wait`, `OSD_Clear` and the `OSD_Show` settle loop of `main()` (boot.c:114-127): keyboard and display polling with nothing to state beyond call order; they touch no host register the model tracks.
- `WaitEnter` and the menu declarations: not reached from `main()`.
- `OSD_Putchar` glyph output and `OSD_ProgressBar` drawing: recorded as events with their arguments.
- The SPI driver and the FAT library (`spi_init`, `FindDrive`, `sd_ishc`, `IsFat32`, `FileOpen`, `FileRead`, `FileNextSector`): not part of this model; their answers are given up front in a `Card`, and a `FileRead` past the supplied answers counts as failed.
- The blocking handshake of the BOOTDATA register: each write is one event.
- The byte order of the sector buffer: a parameter of `Words.LoadWord`; the transfer works on words.
- File sizes of 2^31 bytes or more, which would make `int filesize` negative: `FileSize` stops below 2^31.
- The endless loop of `main()`: modelled as the prefix after any finite number of attempts, each against the card as it then answers.
