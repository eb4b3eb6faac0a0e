/** One boot attempt, `Boot()` (rtl/loader/firmware/boot.c:41-105). */
module Loader {
  import opened Storage
  import opened Trace
  import opened Stream
  import Progress
  import Host

  /** The 8.3 directory name of the boot image, as FileOpen receives it. */
  const BootImageName: string := "82      ROM"

  const InitText: string := "Initializing SD card\n"
  const SdhcText: string := "SDHC card detected\n"
  const Fat32Text: string := "Fat32 detected\n"
  const TryingText: string := "Trying 82.ROM\n"
  const LoadingText: string := "Loading 82.ROM\n"

  /** `if (flag) OSD_Puts(msg);` */
  function Notice(flag: bool, msg: string): seq<Event>
  {
    if flag then [Osd(msg)] else []
  }

  /** A notice only ever shows its message. */
  lemma NoticeProjections(flag: bool, msg: string)
    ensures PortBytes(Notice(flag, msg)) == [] && Calls(Notice(flag, msg)) == []
    ensures Texts(Notice(flag, msg)) == (if flag then [msg] else [])
  {
    Single(Osd(msg));
  }

  /** What `Boot()` does from `spi_init` succeeding through `FileOpen`, once the
      drive is found: report the card class and the filesystem, then try the file. */
  function Opening(card: Card): seq<Event>
  {
    [Osd(InitText), Extern(SpiInit), Extern(FindDrive), Extern(SdIsHc)]
    + Notice(card.highCapacity, SdhcText)
    + [Extern(IsFat32)]
    + Notice(card.fat32, Fat32Text)
    + [Osd(TryingText), Extern(FileOpen(BootImageName))]
  }

  /** One call of `Boot()`: `loaded` is its return value 1, `trace` what it did. */
  function Boot(card: Card): Outcome
  {
    var init := [Osd(InitText), Extern(SpiInit)];
    if !card.spiReady then Outcome(false, init)
    else if !card.driveFound then Outcome(false, init + [Extern(FindDrive)])
    else
      match card.image
      case NotFound => Outcome(false, Opening(card))
      case Found(f) =>
        var s := StreamFrom(f.size, 0, Progress.Scale(f.size), f.answers);
        Outcome(s.loaded, Opening(card) + [Osd(LoadingText)] + s.trace)
  }

  /** The calls `Boot()` makes up to and including `FileOpen`. */
  const OpenCalls: seq<Event> :=
    [Extern(SpiInit), Extern(FindDrive), Extern(SdIsHc), Extern(IsFat32), Extern(FileOpen(BootImageName))]

  lemma OpeningPort(card: Card)
    ensures PortBytes(Opening(card)) == []
  {
    NoPortWrites(Opening(card));
  }

  /** The call projection of a trace made of five pieces, the second and
      fourth without calls. */
  lemma CallsOfFive(a: seq<Event>, b: seq<Event>, c: seq<Event>, d: seq<Event>, e: seq<Event>,
                    ca: seq<Event>, cc: seq<Event>, ce: seq<Event>)
    requires Calls(a) == ca && Calls(b) == [] && Calls(c) == cc && Calls(d) == [] && Calls(e) == ce
    ensures Calls(a + b + c + d + e) == ca + cc + ce
  {
    CallsAppend(a + b + c + d, e);
    CallsAppend(a + b + c, d);
    CallsAppend(a + b, c);
    CallsAppend(a, b);
    assert ca + [] + cc + [] == ca + cc;
  }

  lemma InitCalls()
    ensures Calls([Osd(InitText), Extern(SpiInit), Extern(FindDrive), Extern(SdIsHc)])
         == [Extern(SpiInit), Extern(FindDrive), Extern(SdIsHc)]
  {
    var a := [Osd(InitText), Extern(SpiInit), Extern(FindDrive), Extern(SdIsHc)];
    assert a == [Osd(InitText)] + [Extern(SpiInit), Extern(FindDrive), Extern(SdIsHc)];
    CallsAppend([Osd(InitText)], [Extern(SpiInit), Extern(FindDrive), Extern(SdIsHc)]);
    NoCalls([Osd(InitText)]);
    OnlyCalls([Extern(SpiInit), Extern(FindDrive), Extern(SdIsHc)]);
  }

  lemma TryCalls()
    ensures Calls([Osd(TryingText), Extern(FileOpen(BootImageName))]) == [Extern(FileOpen(BootImageName))]
  {
    assert [Osd(TryingText), Extern(FileOpen(BootImageName))] == [Osd(TryingText)] + [Extern(FileOpen(BootImageName))];
    CallsAppend([Osd(TryingText)], [Extern(FileOpen(BootImageName))]);
    Single(Osd(TryingText));
    Single(Extern(FileOpen(BootImageName)));
  }

  lemma OpeningCalls(card: Card)
    ensures Calls(Opening(card)) == OpenCalls
  {
    NoticeProjections(card.highCapacity, SdhcText);
    NoticeProjections(card.fat32, Fat32Text);
    Single(Extern(IsFat32));
    InitCalls();
    TryCalls();
    CallsOfFive([Osd(InitText), Extern(SpiInit), Extern(FindDrive), Extern(SdIsHc)], Notice(card.highCapacity, SdhcText),
                [Extern(IsFat32)], Notice(card.fat32, Fat32Text), [Osd(TryingText), Extern(FileOpen(BootImageName))],
                [Extern(SpiInit), Extern(FindDrive), Extern(SdIsHc)], [Extern(IsFat32)], [Extern(FileOpen(BootImageName))]);
    OpenCallsSplit();
  }

  lemma OpenCallsSplit()
    ensures [Extern(SpiInit), Extern(FindDrive), Extern(SdIsHc)] + [Extern(IsFat32)] + [Extern(FileOpen(BootImageName))]
         == OpenCalls
  {
  }

  /** The text projection of a trace made of five pieces, the third without text. */
  lemma TextsOfFive(a: seq<Event>, b: seq<Event>, c: seq<Event>, d: seq<Event>, e: seq<Event>,
                    ta: seq<string>, tb: seq<string>, td: seq<string>, te: seq<string>)
    requires Texts(a) == ta && Texts(b) == tb && Texts(c) == [] && Texts(d) == td && Texts(e) == te
    ensures Texts(a + b + c + d + e) == ta + tb + td + te
  {
    TextsAppend(a + b + c + d, e);
    TextsAppend(a + b + c, d);
    TextsAppend(a + b, c);
    TextsAppend(a, b);
    assert ta + tb + [] == ta + tb;
  }

  lemma InitTexts()
    ensures Texts([Osd(InitText), Extern(SpiInit), Extern(FindDrive), Extern(SdIsHc)]) == [InitText]
  {
    assert [Osd(InitText), Extern(SpiInit), Extern(FindDrive), Extern(SdIsHc)]
        == [Osd(InitText)] + [Extern(SpiInit), Extern(FindDrive), Extern(SdIsHc)];
    TextsAppend([Osd(InitText)], [Extern(SpiInit), Extern(FindDrive), Extern(SdIsHc)]);
    Single(Osd(InitText));
    NoTexts([Extern(SpiInit), Extern(FindDrive), Extern(SdIsHc)]);
  }

  lemma TryTexts()
    ensures Texts([Osd(TryingText), Extern(FileOpen(BootImageName))]) == [TryingText]
  {
    assert [Osd(TryingText), Extern(FileOpen(BootImageName))] == [Osd(TryingText)] + [Extern(FileOpen(BootImageName))];
    TextsAppend([Osd(TryingText)], [Extern(FileOpen(BootImageName))]);
    Single(Osd(TryingText));
    Single(Extern(FileOpen(BootImageName)));
  }

  /** The opening shows "Initializing SD card", then "SDHC card detected"
      exactly for a high-capacity card, "Fat32 detected" exactly for a FAT32
      volume, then "Trying 82.ROM". */
  lemma OpeningTexts(card: Card)
    ensures Texts(Opening(card))
         == [InitText] + (if card.highCapacity then [SdhcText] else [])
            + (if card.fat32 then [Fat32Text] else []) + [TryingText]
  {
    NoticeProjections(card.highCapacity, SdhcText);
    NoticeProjections(card.fat32, Fat32Text);
    Single(Extern(IsFat32));
    InitTexts();
    TryTexts();
    TextsOfFive([Osd(InitText), Extern(SpiInit), Extern(FindDrive), Extern(SdIsHc)], Notice(card.highCapacity, SdhcText),
                [Extern(IsFat32)], Notice(card.fat32, Fat32Text), [Osd(TryingText), Extern(FileOpen(BootImageName))],
                [InitText], if card.highCapacity then [SdhcText] else [], if card.fat32 then [Fat32Text] else [],
                [TryingText]);
  }

  /** The projections of the events before `FindDrive`. */
  lemma InitProjections()
    ensures var t := [Osd(InitText), Extern(SpiInit)];
      PortBytes(t) == [] && Calls(t) == [Extern(SpiInit)] && Texts(t) == [InitText]
  {
    assert [Osd(InitText), Extern(SpiInit)] == [Osd(InitText)] + [Extern(SpiInit)];
    PortBytesAppend([Osd(InitText)], [Extern(SpiInit)]);
    CallsAppend([Osd(InitText)], [Extern(SpiInit)]);
    TextsAppend([Osd(InitText)], [Extern(SpiInit)]);
    Single(Osd(InitText));
    Single(Extern(SpiInit));
  }

  /** `spi_init` failing ends `Boot()` after the first message. */
  lemma SpiFails(card: Card)
    requires !card.spiReady
    ensures var o := Boot(card);
      && !o.loaded && PortBytes(o.trace) == [] && Calls(o.trace) == [Extern(SpiInit)] && Texts(o.trace) == [InitText]
  {
    InitProjections();
  }

  /** `FindDrive` failing ends `Boot()` right after it. */
  lemma DriveMissing(card: Card)
    requires card.spiReady && !card.driveFound
    ensures var o := Boot(card);
      && !o.loaded && PortBytes(o.trace) == [] && Calls(o.trace) == [Extern(SpiInit), Extern(FindDrive)]
      && Texts(o.trace) == [InitText]
  {
    var init := [Osd(InitText), Extern(SpiInit)];
    InitProjections();
    PortBytesAppend(init, [Extern(FindDrive)]);
    CallsAppend(init, [Extern(FindDrive)]);
    TextsAppend(init, [Extern(FindDrive)]);
    Single(Extern(FindDrive));
  }

  /** A missing image ends `Boot()` right after `FileOpen`. */
  lemma ImageMissing(card: Card)
    requires card.spiReady && card.driveFound && card.image.NotFound?
    ensures var o := Boot(card);
      && !o.loaded && PortBytes(o.trace) == [] && Calls(o.trace) == OpenCalls && Texts(o.trace) == Texts(Opening(card))
  {
    assert Boot(card) == Outcome(false, Opening(card));
    OpeningPort(card);
    OpeningCalls(card);
  }

  /** A `Boot()` that ends before the file is open, because `spi_init` or
      `FindDrive` fails or the image is missing, returns 0 without a single
      BOOTDATA write, progress bar or `FileRead`: its calls are a prefix of
      those up to `FileOpen`. */
  lemma BootEarlyFailure(card: Card)
    requires !card.spiReady || !card.driveFound || card.image.NotFound?
    ensures var o := Boot(card);
      && !o.loaded
      && PortBytes(o.trace) == []
      && Calls(o.trace) == (if !card.spiReady then OpenCalls[..1]
                            else if !card.driveFound then OpenCalls[..2]
                            else OpenCalls)
  {
    if !card.spiReady {
      SpiFails(card);
    } else if !card.driveFound {
      DriveMissing(card);
    } else {
      ImageMissing(card);
    }
  }

  /** Once the image is open, `Boot()` is the opening, the "Loading" message
      and the transfer. */
  lemma FoundTrace(card: Card, f: FileImage)
    requires card.spiReady && card.driveFound && card.image == Found(f)
    ensures var s := StreamFrom(f.size, 0, Progress.Scale(f.size), f.answers);
      Boot(card) == Outcome(s.loaded, Opening(card) + [Osd(LoadingText)] + s.trace)
  {
  }

  /** The projections of a trace that opens, shows a message and streams. */
  lemma LoadingProjections(t: seq<Event>, opening: seq<Event>, s: seq<Event>)
    requires t == opening + [Osd(LoadingText)] + s
    requires PortBytes(opening) == [] && Calls(opening) == OpenCalls
    ensures PortBytes(t) == PortBytes(s)
    ensures Calls(t) == OpenCalls + Calls(s)
    ensures Texts(t) == Texts(opening) + [LoadingText] + Texts(s)
  {
    Single(Osd(LoadingText));
    PortBytesAppend(opening + [Osd(LoadingText)], s);
    PortBytesAppend(opening, [Osd(LoadingText)]);
    CallsAppend(opening + [Osd(LoadingText)], s);
    CallsAppend(opening, [Osd(LoadingText)]);
    TextsAppend(opening + [Osd(LoadingText)], s);
    TextsAppend(opening, [Osd(LoadingText)]);
  }

  /** Once the image is open, the projections of `Boot()` are those of the
      opening and the "Loading" message followed by those of the transfer. */
  lemma FoundProjections(card: Card, f: FileImage)
    requires card.spiReady && card.driveFound && card.image == Found(f)
    ensures var s := StreamFrom(f.size, 0, Progress.Scale(f.size), f.answers);
      var o := Boot(card);
      && o.loaded == s.loaded
      && PortBytes(o.trace) == PortBytes(s.trace)
      && Calls(o.trace) == OpenCalls + Calls(s.trace)
      && Texts(o.trace) == Texts(Opening(card)) + [LoadingText] + Texts(s.trace)
  {
    var s := StreamFrom(f.size, 0, Progress.Scale(f.size), f.answers);
    FoundTrace(card, f);
    OpeningPort(card);
    OpeningCalls(card);
    LoadingProjections(Boot(card).trace, Opening(card), s.trace);
  }

  /** `Boot()` returns 1 exactly when the card initialises, the drive is
      found, the image opens and all ceil(size / 512) of its reads succeed. */
  lemma BootLoadedIff(card: Card)
    ensures Boot(card).loaded <==>
      && card.spiReady && card.driveFound && card.image.Found?
      && ReadsSucceed(card.image.file.answers, 0, SectorCount(card.image.file.size))
  {
    if card.spiReady && card.driveFound && card.image.Found? {
      var f := card.image.file;
      StreamLoadedIff(f.size, 0, Progress.Scale(f.size), f.answers);
    }
  }

  /** A boot whose reads all succeed streams the whole image to BOOTDATA, most
      significant byte of each word first, padded to a multiple of four bytes,
      draws one progress bar per sector with counters 0, 1, ... and the scale
      of the file size, and shows "Loading 82.ROM" after the opening messages. */
  lemma BootLoads(card: Card, f: FileImage)
    requires card.spiReady && card.driveFound && card.image == Found(f)
    requires ReadsSucceed(f.answers, 0, SectorCount(f.size))
    ensures var o := Boot(card);
      && o.loaded
      && |PortBytes(o.trace)| == (if f.size > 0 then 4 * GroupCount(f.size) else 0)
      && StreamsSectors(PortBytes(o.trace), f.answers, 0)
      && Calls(o.trace) == OpenCalls + Iterations(0, SectorCount(f.size), Progress.Scale(f.size))
      && Texts(o.trace) == Texts(Opening(card)) + [LoadingText]
  {
    FoundProjections(card, f);
    StreamAllRead(f.size, 0, Progress.Scale(f.size), f.answers);
  }

  /** A boot whose read of sector k fails has written the k sectors before it,
      shows "Read failed" last and returns 0. */
  lemma BootReadFails(card: Card, f: FileImage, k: nat)
    requires card.spiReady && card.driveFound && card.image == Found(f)
    requires k < SectorCount(f.size)
    requires ReadsSucceed(f.answers, 0, k) && ReadAt(f.answers, k).ReadFailed?
    ensures var o := Boot(card);
      && !o.loaded
      && |PortBytes(o.trace)| == SectorSize * k
      && StreamsSectors(PortBytes(o.trace), f.answers, 0)
      && Calls(o.trace) == OpenCalls + Iterations(0, k, Progress.Scale(f.size))
                           + [ProgressBar(k, Progress.Scale(f.size)), Extern(FileRead)]
      && Texts(o.trace) == Texts(Opening(card)) + [LoadingText, ReadFailedText]
  {
    FoundProjections(card, f);
    StreamReadFails(f.size, 0, Progress.Scale(f.size), f.answers, k);
  }

  /** An empty image loads at once: no progress bar, no read, no byte. */
  lemma BootEmptyImage(card: Card, f: FileImage)
    requires card.spiReady && card.driveFound && card.image == Found(f) && f.size == 0
    ensures var o := Boot(card);
      && o.loaded && PortBytes(o.trace) == [] && Calls(o.trace) == OpenCalls
  {
    BootLoads(card, f);
  }

  /** The messages of a `Boot()`: the first line alone if the card or drive
      fails, otherwise the opening's, then "Loading 82.ROM" once the image is
      open, then "Read failed" exactly when a read fails. */
  lemma BootTexts(card: Card)
    ensures var o := Boot(card);
      Texts(o.trace)
      == if !card.spiReady || !card.driveFound then [InitText]
         else if card.image.NotFound? then Texts(Opening(card))
         else Texts(Opening(card)) + [LoadingText] + (if o.loaded then [] else [ReadFailedText])
  {
    if !card.spiReady {
      SpiFails(card);
    } else if !card.driveFound {
      DriveMissing(card);
    } else {
      match card.image
      case NotFound =>
      case Found(f) =>
        FoundProjections(card, f);
        StreamTexts(f.size, 0, Progress.Scale(f.size), f.answers);
    }
  }

  /** `Boot()` writes no host register but BOOTDATA. */
  lemma BootWritesOnlyData(card: Card, reg: int)
    requires reg != Host.BOOTDATA
    ensures Writes(Boot(card).trace, reg) == []
  {
    if !card.spiReady {
      NoHostWrites([Osd(InitText), Extern(SpiInit)], reg);
    } else if !card.driveFound {
      NoHostWrites([Osd(InitText), Extern(SpiInit)] + [Extern(FindDrive)], reg);
    } else {
      NoHostWrites(Opening(card), reg);
      match card.image
      case NotFound =>
      case Found(f) =>
        var s := StreamFrom(f.size, 0, Progress.Scale(f.size), f.answers);
        FoundTrace(card, f);
        WritesAppend(Opening(card) + [Osd(LoadingText)], s.trace, reg);
        WritesAppend(Opening(card), [Osd(LoadingText)], reg);
        SingleWrite(Osd(LoadingText), reg);
        StreamWritesOnlyData(f.size, 0, Progress.Scale(f.size), f.answers, reg);
    }
  }

  /** `Boot()` step by step as the firmware runs it: the scale loop, then the
      sector loop; it returns 1 or 0 and does what `Boot` describes. */
  method BootAttempt(card: Card) returns (result: int, trace: seq<Event>)
    ensures result == 0 || result == 1
    ensures (result == 1) == Boot(card).loaded && trace == Boot(card).trace
  {
    result := 0;
    trace := [Osd(InitText), Extern(SpiInit)];
    if card.spiReady {
      trace := trace + [Extern(FindDrive)];
      if !card.driveFound {
        return;
      }
      trace := trace + [Extern(SdIsHc)];
      if card.highCapacity {
        trace := trace + [Osd(SdhcText)];
      }
      trace := trace + [Extern(IsFat32)];
      if card.fat32 {
        trace := trace + [Osd(Fat32Text)];
      }
      trace := trace + [Osd(TryingText), Extern(FileOpen(BootImageName))];
      assert trace == Opening(card);
      if card.image.Found? {
        var f := card.image.file;
        trace := trace + [Osd(LoadingText)];
        var bits, c := Progress.ComputeScale(f.size);
        var loaded, rest := Transfer(f.size, c, bits, f.answers);
        trace := trace + rest;
        if loaded {
          result := 1;
        }
      }
    }
  }

  /** A 1024-byte image: scale 2, two iterations with counters 0 and 1, and
      1024 BOOTDATA writes. */
  lemma BootKilobyte(card: Card, f: FileImage)
    requires card.spiReady && card.driveFound && card.image == Found(f) && f.size == 1024
    requires ReadsSucceed(f.answers, 0, 2)
    ensures var o := Boot(card);
      && o.loaded
      && |PortBytes(o.trace)| == 1024
      && Calls(o.trace) == OpenCalls + [ProgressBar(0, 2), Extern(FileRead), Extern(FileNextSector),
                                        ProgressBar(1, 2), Extern(FileRead), Extern(FileNextSector)]
  {
    Progress.ScaleExamples();
    assert SectorCount(1024) == 2;
    BootLoads(card, f);
    assert Iterations(0, 2, 2) == [ProgressBar(0, 2), Extern(FileRead), Extern(FileNextSector)] + Iterations(1, 1, 2);
    assert Iterations(1, 1, 2) == [ProgressBar(1, 2), Extern(FileRead), Extern(FileNextSector)] + Iterations(2, 0, 2);
  }

  /** A 601-byte image: the second iteration has 89 valid bytes and writes 92,
      three past the end of the file. */
  lemma BootShortTail(card: Card, f: FileImage)
    requires card.spiReady && card.driveFound && card.image == Found(f) && f.size == 601
    requires ReadsSucceed(f.answers, 0, 2)
    ensures var o := Boot(card);
      o.loaded && |PortBytes(o.trace)| == 604 == f.size + 3
  {
    assert SectorCount(601) == 2;
    BootLoads(card, f);
  }
}
