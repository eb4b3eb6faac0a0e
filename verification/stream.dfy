/** The sector-streaming transfer of `Boot()` (rtl/loader/firmware/boot.c:76-101). */
module Stream {
  import opened Words
  import opened Storage
  import opened Trace
  import Host

  const ReadFailedText: string := "Read failed\n"

  /** The bytes of the sector that count in an iteration: the smaller of the
      remaining size and a sector. */
  function ValidBytes(remaining: int): (n: int)
    requires remaining > 0
    ensures 0 < n <= SectorSize && n <= remaining
    ensures n == remaining || n == SectorSize
  {
    if remaining < SectorSize then remaining else SectorSize
  }

  /** How often `for(i=0; i<n; i+=4)` runs: the ceiling of n / 4. */
  function GroupCount(n: nat): (g: nat)
    ensures n == 0 ==> g == 0
    ensures n > 0 ==> 4 * (g - 1) < n <= 4 * g
  {
    (n + 3) / 4
  }

  /** The bytes written for a run of words, each word most significant byte first. */
  function Flatten(ws: seq<int32>): (bs: seq<byte>)
    ensures |bs| == 4 * |ws|
  {
    if |ws| == 0 then [] else Flatten(ws[..|ws| - 1]) + WordBytes(ws[|ws| - 1])
  }

  /** The bytes one iteration writes when `remaining` bytes of the file are left:
      one group of four for every started group of valid bytes. A full sector
      gives exactly 512; a short tail whose length is not a multiple of 4 gives
      up to 3 bytes past the end of the file. */
  function SectorBytes(sector: Sector, remaining: int): (bs: seq<byte>)
    requires remaining > 0
    ensures |bs| == 4 * GroupCount(ValidBytes(remaining))
    ensures remaining >= SectorSize ==> |bs| == SectorSize
    ensures ValidBytes(remaining) <= |bs| <= ValidBytes(remaining) + 3
    ensures |bs| == ValidBytes(remaining) <==> ValidBytes(remaining) % 4 == 0
  {
    Flatten(sector[..GroupCount(ValidBytes(remaining))])
  }

  /** The loop `while(filesize > 0)` entered with `filesize == remaining` and
      `c` as progress counter. The read of the iteration whose counter is `c` is
      answered by answers[c]: answers are indexed by the counter, not by the
      number of reads made since entry. `Boot()` enters with `c == 0`, the value
      the scale loop leaves, so there the counter is the number of reads made
      before and answers[k] answers the k-th `FileRead` call. */
  function StreamFrom(remaining: int, c: nat, bits: int, answers: seq<ReadResult>): Outcome
    decreases remaining
  {
    if remaining <= 0 then Outcome(true, [])
    else
      var head := [ProgressBar(c, bits), Extern(FileRead)];
      match ReadAt(answers, c)
      case ReadFailed => Outcome(false, head + [Osd(ReadFailedText)])
      case ReadOk(sector) =>
        var rest := StreamFrom(remaining - SectorSize, c + 1, bits, answers);
        Outcome(rest.loaded, head + PortWrites(SectorBytes(sector, remaining)) + [Extern(FileNextSector)] + rest.trace)
  }

  /** Each iteration takes one sector off the count. */
  lemma SectorCountStep(remaining: int)
    requires remaining > 0
    ensures SectorCount(remaining - SectorSize) == SectorCount(remaining) - 1
  {
  }

  /** Reference for the calls made by `count` iterations that all read
      successfully: progress bar with counter c, c+1, ..., each followed by
      `FileRead` and then `FileNextSector`. */
  function Iterations(c: nat, count: nat, bits: int): seq<Event>
    decreases count
  {
    if count == 0 then []
    else [ProgressBar(c, bits), Extern(FileRead), Extern(FileNextSector)] + Iterations(c + 1, count - 1, bits)
  }

  /** Iteration k of the reference draws the bar with counter c + k, then reads, then advances. */
  lemma {:induction false} IterationsShape(c: nat, count: nat, bits: int)
    ensures |Iterations(c, count, bits)| == 3 * count
    ensures forall k :: 0 <= k < count ==>
      && Iterations(c, count, bits)[3 * k] == ProgressBar(c + k, bits)
      && Iterations(c, count, bits)[3 * k + 1] == Extern(FileRead)
      && Iterations(c, count, bits)[3 * k + 2] == Extern(FileNextSector)
    decreases count
  {
    if count > 0 {
      IterationsShape(c + 1, count - 1, bits);
      var it := Iterations(c, count, bits);
      var rest := Iterations(c + 1, count - 1, bits);
      forall k | 0 <= k < count
        ensures it[3 * k] == ProgressBar(c + k, bits)
        ensures it[3 * k + 1] == Extern(FileRead)
        ensures it[3 * k + 2] == Extern(FileNextSector)
      {
        if k > 0 {
          assert it[3 * k] == rest[3 * (k - 1)];
          assert it[3 * k + 1] == rest[3 * (k - 1) + 1];
          assert it[3 * k + 2] == rest[3 * (k - 1) + 2];
        }
      }
    }
  }

  /** Byte j of a flattened run is byte j % 4 of word j / 4. */
  lemma {:induction false} FlattenIndex(ws: seq<int32>, j: int)
    requires 0 <= j < 4 * |ws|
    ensures Flatten(ws)[j] == WordBytes(ws[j / 4])[j % 4]
  {
    var init := ws[..|ws| - 1];
    if j < 4 * |init| {
      FlattenIndex(init, j);
      assert init[j / 4] == ws[j / 4];
    } else {
      assert j / 4 == |init|;
    }
  }

  /** Byte j of the port stream of sectors read from call number c on: byte
      j % 4, most significant first, of word (j % 512) / 4 of the sector that
      `FileRead` call c + j / 512 answered; -1, which no port write carries,
      if that call failed. */
  function StreamByte(answers: seq<ReadResult>, c: nat, j: nat): int
  {
    match ReadAt(answers, c + j / SectorSize)
    case ReadOk(sector) => WordBytes(sector[(j % SectorSize) / 4])[j % 4]
    case ReadFailed => -1
  }

  predicate StreamsSectors(bytes: seq<int>, answers: seq<ReadResult>, c: nat)
  {
    forall j: nat :: j < |bytes| ==> bytes[j] == StreamByte(answers, c, j)
  }

  lemma SectorBytesStream(sector: Sector, remaining: int, answers: seq<ReadResult>, c: nat)
    requires remaining > 0 && ReadAt(answers, c) == ReadOk(sector)
    ensures StreamsSectors(SectorBytes(sector, remaining), answers, c)
  {
    var bs := SectorBytes(sector, remaining);
    var ws := sector[..GroupCount(ValidBytes(remaining))];
    forall j: nat | j < |bs|
      ensures bs[j] == StreamByte(answers, c, j)
    {
      FlattenIndex(ws, j);
    }
  }

  lemma StreamsSectorsAppend(a: seq<int>, b: seq<int>, answers: seq<ReadResult>, c: nat)
    requires |a| == SectorSize
    requires StreamsSectors(a, answers, c) && StreamsSectors(b, answers, c + 1)
    ensures StreamsSectors(a + b, answers, c)
  {
    forall j: nat | j < |a + b|
      ensures (a + b)[j] == StreamByte(answers, c, j)
    {
      if j < |a| {
        assert (a + b)[j] == a[j];
      } else {
        var k := j - SectorSize;
        assert (a + b)[j] == b[k];
        NextSectorIndex(j);
        assert StreamByte(answers, c + 1, k) == StreamByte(answers, c, j);
      }
    }
  }

  /** Byte j of the stream is byte j - 512 of the stream that starts one sector later. */
  lemma NextSectorIndex(j: int)
    requires j >= SectorSize
    ensures (j - SectorSize) / SectorSize == j / SectorSize - 1
    ensures (j - SectorSize) % SectorSize == j % SectorSize
    ensures (j - SectorSize) % 4 == j % 4
  {
    Words.DivModUnique(j - SectorSize, SectorSize, j / SectorSize - 1, j % SectorSize);
    Words.DivModUnique(j - SectorSize, 4, j / 4 - 128, j % 4);
  }

  /** The projections of one successful iteration's events: progress bar and
      read, the port writes of `bs`, the advance, then whatever follows. */
  lemma IterationProjections(c: nat, bits: int, bs: seq<byte>, rest: seq<Event>)
    ensures var t := [ProgressBar(c, bits), Extern(FileRead)] + PortWrites(bs) + [Extern(FileNextSector)] + rest;
      && PortBytes(t) == bs + PortBytes(rest)
      && Calls(t) == [ProgressBar(c, bits), Extern(FileRead), Extern(FileNextSector)] + Calls(rest)
      && Texts(t) == Texts(rest)
  {
    IterationPortBytes(c, bits, bs, rest);
    IterationCalls(c, bits, bs, rest);
    IterationTexts(c, bits, bs, rest);
  }

  lemma IterationPortBytes(c: nat, bits: int, bs: seq<byte>, rest: seq<Event>)
    ensures PortBytes([ProgressBar(c, bits), Extern(FileRead)] + PortWrites(bs) + [Extern(FileNextSector)] + rest)
      == bs + PortBytes(rest)
  {
    var head := [ProgressBar(c, bits), Extern(FileRead)];
    var next: seq<Event> := [Extern(FileNextSector)];
    SingleTwo(ProgressBar(c, bits), Extern(FileRead));
    Single(Extern(FileNextSector));
    PortBytesOfWrites(bs);
    PortBytesOfFour(head, PortWrites(bs), next, rest, [], bs, []);
    assert [] + bs + [] == bs;
  }

  lemma IterationCalls(c: nat, bits: int, bs: seq<byte>, rest: seq<Event>)
    ensures Calls([ProgressBar(c, bits), Extern(FileRead)] + PortWrites(bs) + [Extern(FileNextSector)] + rest)
      == [ProgressBar(c, bits), Extern(FileRead), Extern(FileNextSector)] + Calls(rest)
  {
    var head := [ProgressBar(c, bits), Extern(FileRead)];
    var next: seq<Event> := [Extern(FileNextSector)];
    SingleTwo(ProgressBar(c, bits), Extern(FileRead));
    Single(Extern(FileNextSector));
    PortBytesOfWrites(bs);
    CallsOfFour(head, PortWrites(bs), next, rest, head, [], next);
    assert head + [] + next == [ProgressBar(c, bits), Extern(FileRead), Extern(FileNextSector)];
  }

  lemma IterationTexts(c: nat, bits: int, bs: seq<byte>, rest: seq<Event>)
    ensures Texts([ProgressBar(c, bits), Extern(FileRead)] + PortWrites(bs) + [Extern(FileNextSector)] + rest)
      == Texts(rest)
  {
    var head := [ProgressBar(c, bits), Extern(FileRead)];
    var next: seq<Event> := [Extern(FileNextSector)];
    SingleTwo(ProgressBar(c, bits), Extern(FileRead));
    Single(Extern(FileNextSector));
    PortBytesOfWrites(bs);
    TextsOfFour(head, PortWrites(bs), next, rest, [], [], []);
  }

  /** One iteration that reads successfully, split into its parts. */
  lemma StepOk(remaining: int, c: nat, bits: int, answers: seq<ReadResult>, sector: Sector)
    requires remaining > 0 && ReadAt(answers, c) == ReadOk(sector)
    ensures var o := StreamFrom(remaining, c, bits, answers);
      var rest := StreamFrom(remaining - SectorSize, c + 1, bits, answers);
      && o.loaded == rest.loaded
      && PortBytes(o.trace) == SectorBytes(sector, remaining) + PortBytes(rest.trace)
      && Calls(o.trace) == [ProgressBar(c, bits), Extern(FileRead), Extern(FileNextSector)] + Calls(rest.trace)
      && Texts(o.trace) == Texts(rest.trace)
  {
    var rest := StreamFrom(remaining - SectorSize, c + 1, bits, answers);
    IterationProjections(c, bits, SectorBytes(sector, remaining), rest.trace);
  }

  lemma SingleTwo(e1: Event, e2: Event)
    requires IsCall(e1) && IsCall(e2) && !IsPortWrite(e1) && !IsPortWrite(e2) && !e1.Osd? && !e2.Osd?
    ensures PortBytes([e1, e2]) == [] && Calls([e1, e2]) == [e1, e2] && Texts([e1, e2]) == []
  {
    Single(e1);
    Single(e2);
    PortBytesAppend([e1], [e2]);
    CallsAppend([e1], [e2]);
    TextsAppend([e1], [e2]);
    assert [e1] + [e2] == [e1, e2];
  }

  /** The transfer completes exactly when every `FileRead` of its
      ceil(remaining / 512) iterations succeeds. */
  lemma {:induction false} StreamLoadedIff(remaining: int, c: nat, bits: int, answers: seq<ReadResult>)
    ensures StreamFrom(remaining, c, bits, answers).loaded <==> ReadsSucceed(answers, c, SectorCount(remaining))
    decreases remaining
  {
    if remaining > 0 {
      match ReadAt(answers, c)
      case ReadFailed =>
      case ReadOk(sector) =>
        StreamLoadedIff(remaining - SectorSize, c + 1, bits, answers);
        SectorCountStep(remaining);
    }
  }

  /** With every read succeeding, the transfer runs ceil(remaining / 512)
      iterations, makes exactly the reference calls, prints nothing, and writes
      4 * ceil(remaining / 4) bytes: the sectors' words in order, each most
      significant byte first. */
  lemma StreamAllRead(remaining: int, c: nat, bits: int, answers: seq<ReadResult>)
    requires ReadsSucceed(answers, c, SectorCount(remaining))
    ensures var o := StreamFrom(remaining, c, bits, answers);
      && o.loaded
      && Calls(o.trace) == Iterations(c, SectorCount(remaining), bits)
      && Texts(o.trace) == []
      && |PortBytes(o.trace)| == (if remaining > 0 then 4 * GroupCount(remaining) else 0)
      && StreamsSectors(PortBytes(o.trace), answers, c)
  {
    StreamLoadedIff(remaining, c, bits, answers);
    StreamAllReadCalls(remaining, c, bits, answers);
    StreamAllReadBytes(remaining, c, bits, answers);
  }

  lemma {:induction false} StreamAllReadCalls(remaining: int, c: nat, bits: int, answers: seq<ReadResult>)
    requires ReadsSucceed(answers, c, SectorCount(remaining))
    ensures var o := StreamFrom(remaining, c, bits, answers);
      Calls(o.trace) == Iterations(c, SectorCount(remaining), bits) && Texts(o.trace) == []
    decreases remaining
  {
    if remaining > 0 {
      SectorCountStep(remaining);
      StreamAllReadCalls(remaining - SectorSize, c + 1, bits, answers);
      AllReadCallsStep(remaining, c, bits, answers);
    }
  }

  /** The inductive step of StreamAllReadCalls. */
  lemma AllReadCallsStep(remaining: int, c: nat, bits: int, answers: seq<ReadResult>)
    requires remaining > 0 && ReadsSucceed(answers, c, SectorCount(remaining))
    requires var rest := StreamFrom(remaining - SectorSize, c + 1, bits, answers);
      Calls(rest.trace) == Iterations(c + 1, SectorCount(remaining - SectorSize), bits) && Texts(rest.trace) == []
    ensures var o := StreamFrom(remaining, c, bits, answers);
      Calls(o.trace) == Iterations(c, SectorCount(remaining), bits) && Texts(o.trace) == []
  {
    SectorCountStep(remaining);
    StepOk(remaining, c, bits, answers, ReadAt(answers, c).sector);
  }

  lemma {:induction false} StreamAllReadBytes(remaining: int, c: nat, bits: int, answers: seq<ReadResult>)
    requires ReadsSucceed(answers, c, SectorCount(remaining))
    ensures var o := StreamFrom(remaining, c, bits, answers);
      && |PortBytes(o.trace)| == (if remaining > 0 then 4 * GroupCount(remaining) else 0)
      && StreamsSectors(PortBytes(o.trace), answers, c)
    decreases remaining
  {
    if remaining > 0 {
      SectorCountStep(remaining);
      StreamAllReadBytes(remaining - SectorSize, c + 1, bits, answers);
      AllReadBytesStep(remaining, c, bits, answers);
    }
  }

  /** The inductive step of StreamAllReadBytes. */
  lemma AllReadBytesStep(remaining: int, c: nat, bits: int, answers: seq<ReadResult>)
    requires remaining > 0 && ReadsSucceed(answers, c, SectorCount(remaining))
    requires var rest := PortBytes(StreamFrom(remaining - SectorSize, c + 1, bits, answers).trace);
      && |rest| == (if remaining - SectorSize > 0 then 4 * GroupCount(remaining - SectorSize) else 0)
      && StreamsSectors(rest, answers, c + 1)
    ensures var o := StreamFrom(remaining, c, bits, answers);
      && |PortBytes(o.trace)| == 4 * GroupCount(remaining)
      && StreamsSectors(PortBytes(o.trace), answers, c)
  {
    var sector := ReadAt(answers, c).sector;
    var bs := SectorBytes(sector, remaining);
    var rest := PortBytes(StreamFrom(remaining - SectorSize, c + 1, bits, answers).trace);
    assert PortBytes(StreamFrom(remaining, c, bits, answers).trace) == bs + rest by {
      StepOk(remaining, c, bits, answers, sector);
    }
    assert StreamsSectors(bs, answers, c) by {
      SectorBytesStream(sector, remaining, answers, c);
    }
    ConcatSectorBytes(remaining, bs, rest, answers, c);
  }

  /** Appending the stream of the later sectors to one sector's bytes. */
  lemma ConcatSectorBytes(remaining: int, bs: seq<int>, rest: seq<int>, answers: seq<ReadResult>, c: nat)
    requires remaining > 0 && |bs| == 4 * GroupCount(ValidBytes(remaining))
    requires |rest| == (if remaining - SectorSize > 0 then 4 * GroupCount(remaining - SectorSize) else 0)
    requires StreamsSectors(bs, answers, c) && StreamsSectors(rest, answers, c + 1)
    ensures |bs + rest| == 4 * GroupCount(remaining)
    ensures StreamsSectors(bs + rest, answers, c)
  {
    if remaining > SectorSize {
      StreamsSectorsAppend(bs, rest, answers, c);
    } else {
      assert bs + rest == bs;
    }
  }

  /** A `FileRead` that fails on iteration k ends the transfer unsuccessfully
      after the k full sectors before it were written, with the progress bar
      drawn for iteration k but no `FileNextSector` for it, and "Read failed"
      as the only text. */
  lemma StreamReadFails(remaining: int, c: nat, bits: int, answers: seq<ReadResult>, k: nat)
    requires k < SectorCount(remaining)
    requires ReadsSucceed(answers, c, k) && ReadAt(answers, c + k).ReadFailed?
    ensures var o := StreamFrom(remaining, c, bits, answers);
      && !o.loaded
      && Calls(o.trace) == Iterations(c, k, bits) + [ProgressBar(c + k, bits), Extern(FileRead)]
      && Texts(o.trace) == [ReadFailedText]
      && |PortBytes(o.trace)| == SectorSize * k
      && StreamsSectors(PortBytes(o.trace), answers, c)
  {
    StreamLoadedIff(remaining, c, bits, answers);
    StreamReadFailsCalls(remaining, c, bits, answers, k);
    StreamReadFailsBytes(remaining, c, bits, answers, k);
  }

  /** An iteration whose read fails: bar, read, "Read failed", and nothing else. */
  lemma FirstReadFails(remaining: int, c: nat, bits: int, answers: seq<ReadResult>)
    requires remaining > 0 && ReadAt(answers, c).ReadFailed?
    ensures var o := StreamFrom(remaining, c, bits, answers);
      && !o.loaded
      && PortBytes(o.trace) == []
      && Calls(o.trace) == [ProgressBar(c, bits), Extern(FileRead)]
      && Texts(o.trace) == [ReadFailedText]
  {
    var t := [ProgressBar(c, bits), Extern(FileRead)] + [Osd(ReadFailedText)];
    assert StreamFrom(remaining, c, bits, answers).trace == t;
    FailedIteration(c, bits);
  }

  /** The events of an iteration whose read fails. */
  lemma FailedIteration(c: nat, bits: int)
    ensures var t := [ProgressBar(c, bits), Extern(FileRead)] + [Osd(ReadFailedText)];
      && PortBytes(t) == []
      && Calls(t) == [ProgressBar(c, bits), Extern(FileRead)]
      && Texts(t) == [ReadFailedText]
  {
    FailedIterationPort(c, bits);
    FailedIterationCalls(c, bits);
    FailedIterationTexts(c, bits);
  }

  lemma FailedIterationPort(c: nat, bits: int)
    ensures PortBytes([ProgressBar(c, bits), Extern(FileRead)] + [Osd(ReadFailedText)]) == []
  {
    var head := [ProgressBar(c, bits), Extern(FileRead)];
    PortBytesAppend(head, [Osd(ReadFailedText)]);
    Single(Osd(ReadFailedText));
    SingleTwo(ProgressBar(c, bits), Extern(FileRead));
  }

  lemma FailedIterationCalls(c: nat, bits: int)
    ensures Calls([ProgressBar(c, bits), Extern(FileRead)] + [Osd(ReadFailedText)]) == [ProgressBar(c, bits), Extern(FileRead)]
  {
    var head := [ProgressBar(c, bits), Extern(FileRead)];
    CallsAppend(head, [Osd(ReadFailedText)]);
    Single(Osd(ReadFailedText));
    SingleTwo(ProgressBar(c, bits), Extern(FileRead));
  }

  lemma FailedIterationTexts(c: nat, bits: int)
    ensures Texts([ProgressBar(c, bits), Extern(FileRead)] + [Osd(ReadFailedText)]) == [ReadFailedText]
  {
    var head := [ProgressBar(c, bits), Extern(FileRead)];
    TextsAppend(head, [Osd(ReadFailedText)]);
    Single(Osd(ReadFailedText));
    SingleTwo(ProgressBar(c, bits), Extern(FileRead));
  }

  lemma {:induction false} StreamReadFailsCalls(remaining: int, c: nat, bits: int, answers: seq<ReadResult>, k: nat)
    requires k < SectorCount(remaining)
    requires ReadsSucceed(answers, c, k) && ReadAt(answers, c + k).ReadFailed?
    ensures var o := StreamFrom(remaining, c, bits, answers);
      && Calls(o.trace) == Iterations(c, k, bits) + [ProgressBar(c + k, bits), Extern(FileRead)]
      && Texts(o.trace) == [ReadFailedText]
    decreases k
  {
    if k == 0 {
      FirstReadFails(remaining, c, bits, answers);
    } else {
      SectorCountStep(remaining);
      assert ReadsSucceed(answers, c + 1, k - 1);
      assert c + 1 + (k - 1) == c + k;
      StreamReadFailsCalls(remaining - SectorSize, c + 1, bits, answers, k - 1);
      ReadFailsCallsStep(remaining, c, bits, answers, k);
    }
  }

  /** The inductive step of StreamReadFailsCalls. */
  lemma ReadFailsCallsStep(remaining: int, c: nat, bits: int, answers: seq<ReadResult>, k: nat)
    requires 0 < k < SectorCount(remaining)
    requires ReadsSucceed(answers, c, k)
    requires var rest := StreamFrom(remaining - SectorSize, c + 1, bits, answers);
      && Calls(rest.trace) == Iterations(c + 1, k - 1, bits) + [ProgressBar(c + 1 + (k - 1), bits), Extern(FileRead)]
      && Texts(rest.trace) == [ReadFailedText]
    ensures var o := StreamFrom(remaining, c, bits, answers);
      && Calls(o.trace) == Iterations(c, k, bits) + [ProgressBar(c + k, bits), Extern(FileRead)]
      && Texts(o.trace) == [ReadFailedText]
  {
    StepOk(remaining, c, bits, answers, ReadAt(answers, c).sector);
  }

  lemma {:induction false} StreamReadFailsBytes(remaining: int, c: nat, bits: int, answers: seq<ReadResult>, k: nat)
    requires k < SectorCount(remaining)
    requires ReadsSucceed(answers, c, k) && ReadAt(answers, c + k).ReadFailed?
    ensures var o := StreamFrom(remaining, c, bits, answers);
      && |PortBytes(o.trace)| == SectorSize * k
      && StreamsSectors(PortBytes(o.trace), answers, c)
    decreases k
  {
    if k == 0 {
      FirstReadFails(remaining, c, bits, answers);
    } else {
      SectorCountStep(remaining);
      assert ReadsSucceed(answers, c + 1, k - 1);
      assert c + 1 + (k - 1) == c + k;
      StreamReadFailsBytes(remaining - SectorSize, c + 1, bits, answers, k - 1);
      ReadFailsBytesStep(remaining, c, bits, answers, k);
    }
  }

  /** The inductive step of StreamReadFailsBytes. */
  lemma ReadFailsBytesStep(remaining: int, c: nat, bits: int, answers: seq<ReadResult>, k: nat)
    requires 0 < k < SectorCount(remaining)
    requires ReadsSucceed(answers, c, k)
    requires var rest := PortBytes(StreamFrom(remaining - SectorSize, c + 1, bits, answers).trace);
      |rest| == SectorSize * (k - 1) && StreamsSectors(rest, answers, c + 1)
    ensures var o := StreamFrom(remaining, c, bits, answers);
      && |PortBytes(o.trace)| == SectorSize * k
      && StreamsSectors(PortBytes(o.trace), answers, c)
  {
    var sector := ReadAt(answers, c).sector;
    var rest := PortBytes(StreamFrom(remaining - SectorSize, c + 1, bits, answers).trace);
    StepOk(remaining, c, bits, answers, sector);
    SectorBytesStream(sector, remaining, answers, c);
    StreamsSectorsAppend(SectorBytes(sector, remaining), rest, answers, c);
  }

  /** The transfer shows "Read failed" exactly when it fails, and nothing else. */
  lemma {:induction false} StreamTexts(remaining: int, c: nat, bits: int, answers: seq<ReadResult>)
    ensures var o := StreamFrom(remaining, c, bits, answers);
      Texts(o.trace) == if o.loaded then [] else [ReadFailedText]
    decreases remaining
  {
    if remaining > 0 {
      match ReadAt(answers, c)
      case ReadFailed =>
        FirstReadFails(remaining, c, bits, answers);
      case ReadOk(sector) =>
        StreamTexts(remaining - SectorSize, c + 1, bits, answers);
        StepOk(remaining, c, bits, answers, sector);
    }
  }

  /** A successful iteration writes no register but BOOTDATA. */
  lemma IterationWrites(c: nat, bits: int, bs: seq<byte>, rest: seq<Event>, reg: int)
    requires reg != Host.BOOTDATA
    ensures Writes([ProgressBar(c, bits), Extern(FileRead)] + PortWrites(bs) + [Extern(FileNextSector)] + rest, reg)
      == Writes(rest, reg)
  {
    var head := [ProgressBar(c, bits), Extern(FileRead)];
    WritesAppend(head + PortWrites(bs) + [Extern(FileNextSector)], rest, reg);
    WritesAppend(head + PortWrites(bs), [Extern(FileNextSector)], reg);
    WritesAppend(head, PortWrites(bs), reg);
    NoHostWrites(head, reg);
    SingleWrite(Extern(FileNextSector), reg);
    PortWritesOnlyData(bs, reg);
  }

  /** The transfer writes no host register but BOOTDATA. */
  lemma {:induction false} StreamWritesOnlyData(remaining: int, c: nat, bits: int, answers: seq<ReadResult>, reg: int)
    requires reg != Host.BOOTDATA
    ensures Writes(StreamFrom(remaining, c, bits, answers).trace, reg) == []
    decreases remaining
  {
    if remaining > 0 {
      match ReadAt(answers, c)
      case ReadFailed =>
        StepFails(remaining, c, bits, answers);
        NoHostWrites([ProgressBar(c, bits), Extern(FileRead)] + [Osd(ReadFailedText)], reg);
      case ReadOk(sector) =>
        var rest := StreamFrom(remaining - SectorSize, c + 1, bits, answers);
        StreamWritesOnlyData(remaining - SectorSize, c + 1, bits, answers, reg);
        StepContinues(remaining, c, bits, answers, sector);
        IterationWrites(c, bits, SectorBytes(sector, remaining), rest.trace, reg);
    }
  }

  /** An iteration whose read fails ends the loop with that outcome. */
  lemma StepFails(remaining: int, c: nat, bits: int, answers: seq<ReadResult>)
    requires remaining > 0 && ReadAt(answers, c).ReadFailed?
    ensures StreamFrom(remaining, c, bits, answers)
      == Outcome(false, [ProgressBar(c, bits), Extern(FileRead)] + [Osd(ReadFailedText)])
  {
  }

  /** An iteration whose read succeeds is followed by the rest of the loop. */
  lemma StepContinues(remaining: int, c: nat, bits: int, answers: seq<ReadResult>, sector: Sector)
    requires remaining > 0 && ReadAt(answers, c) == ReadOk(sector)
    ensures var rest := StreamFrom(remaining - SectorSize, c + 1, bits, answers);
      StreamFrom(remaining, c, bits, answers)
      == Outcome(rest.loaded, [ProgressBar(c, bits), Extern(FileRead)] + PortWrites(SectorBytes(sector, remaining))
                                + [Extern(FileNextSector)] + rest.trace)
  {
  }

  /** The four writes of one word, in the order boot.c:87-90 makes them. */
  lemma WordWrites(t: int32)
    ensures PortWrites(WordBytes(t))
      == [HostWrite(Host.BOOTDATA, (t / 0x100_0000) % 0x100), HostWrite(Host.BOOTDATA, (t / 0x1_0000) % 0x100),
          HostWrite(Host.BOOTDATA, (t / 0x100) % 0x100), HostWrite(Host.BOOTDATA, t % 0x100)]
  {
    var wb := WordBytes(t);
    assert wb == [wb[0]] + [wb[1]] + [wb[2]] + [wb[3]];
    PortWritesAppend([wb[0]] + [wb[1]] + [wb[2]], [wb[3]]);
    PortWritesAppend([wb[0]] + [wb[1]], [wb[2]]);
    PortWritesAppend([wb[0]], [wb[1]]);
  }

  /** Writing word p of the sector extends the port writes of the words before it. */
  lemma WriteWordStep(sector: Sector, p: nat)
    requires p < |sector|
    ensures PortWrites(Flatten(sector[..p + 1])) == PortWrites(Flatten(sector[..p])) + PortWrites(WordBytes(sector[p]))
  {
    assert sector[..p + 1][..p] == sector[..p];
    assert Flatten(sector[..p + 1]) == Flatten(sector[..p]) + WordBytes(sector[p]);
    PortWritesAppend(Flatten(sector[..p]), WordBytes(sector[p]));
  }

  /** The inner loop of boot.c:81-91: for i = 0, 4, 8, ... below n, take the
      next word and write its bytes from the top down. */
  method WriteSector(sector: Sector, n: int) returns (writes: seq<Event>)
    requires 0 < n <= SectorSize
    ensures writes == PortWrites(Flatten(sector[..GroupCount(n)]))
  {
    writes := [];
    var i := 0;
    var p := 0;
    while i < n
      invariant 0 <= p <= GroupCount(n) && i == 4 * p
      invariant writes == PortWrites(Flatten(sector[..p]))
      decreases n - i
    {
      var t := sector[p];
      WriteWordStep(sector, p);
      WordWrites(t);
      p := p + 1;
      var t1, t2, t3, t4 := SplitWord(t);
      WordBytesAreDigits(t);
      assert [t4, t3, t2, t1] == WordBytes(t);
      writes := writes + [HostWrite(Host.BOOTDATA, t4), HostWrite(Host.BOOTDATA, t3),
                          HostWrite(Host.BOOTDATA, t2), HostWrite(Host.BOOTDATA, t1)];
      i := i + 4;
    }
  }

  /** The loop of boot.c:76-100 as written: draw the bar, read a sector, write
      its words up to `min(filesize, 512)` bytes, advance, subtract a flat 512.
      It does what the recursive definition StreamFrom describes, started from
      the counter `c0` the scale loop left behind; like StreamFrom it looks up
      the answer to a read by the counter. */
  method Transfer(size: FileSize, c0: nat, bits: int, answers: seq<ReadResult>) returns (loaded: bool, trace: seq<Event>)
    ensures Outcome(loaded, trace) == StreamFrom(size, c0, bits, answers)
  {
    var filesize: int := size;
    var c: nat := c0;
    trace := [];
    while filesize > 0
      invariant Continues(size, c0, filesize, c, bits, answers, trace)
      decreases filesize
    {
      var answer := ReadAt(answers, c);
      if answer.ReadFailed? {
        FailureEndsLoop(size, c0, filesize, c, bits, answers, trace);
        trace := trace + [ProgressBar(c, bits), Extern(FileRead)] + [Osd(ReadFailedText)];
        return false, trace;
      }
      var n := if filesize < SectorSize then filesize else SectorSize;
      var writes := WriteSector(answer.sector, n);
      SuccessContinuesLoop(size, c0, filesize, c, bits, answers, trace, answer.sector);
      trace := trace + ([ProgressBar(c, bits), Extern(FileRead)] + writes + [Extern(FileNextSector)]);
      filesize := filesize - SectorSize;
      c := c + 1;
    }
    ExhaustedEndsLoop(size, c0, filesize, c, bits, answers, trace);
    loaded := true;
  }

  /** Loop invariant of Transfer: what is left of the loop, run from the
      current `filesize` and counter, completes the whole transfer. */
  predicate Continues(size: FileSize, c0: nat, filesize: int, c: nat, bits: int, answers: seq<ReadResult>, trace: seq<Event>)
  {
    var whole := StreamFrom(size, c0, bits, answers);
    var rest := StreamFrom(filesize, c, bits, answers);
    whole.loaded == rest.loaded && whole.trace == trace + rest.trace
  }

  lemma FailureEndsLoop(size: FileSize, c0: nat, filesize: int, c: nat, bits: int, answers: seq<ReadResult>, trace: seq<Event>)
    requires filesize > 0 && ReadAt(answers, c).ReadFailed?
    requires Continues(size, c0, filesize, c, bits, answers, trace)
    ensures StreamFrom(size, c0, bits, answers)
      == Outcome(false, trace + [ProgressBar(c, bits), Extern(FileRead)] + [Osd(ReadFailedText)])
  {
    StepFails(filesize, c, bits, answers);
  }

  lemma SuccessContinuesLoop(size: FileSize, c0: nat, filesize: int, c: nat, bits: int, answers: seq<ReadResult>,
                             trace: seq<Event>, sector: Sector)
    requires filesize > 0 && ReadAt(answers, c) == ReadOk(sector)
    requires Continues(size, c0, filesize, c, bits, answers, trace)
    ensures Continues(size, c0, filesize - SectorSize, c + 1, bits, answers,
      trace + ([ProgressBar(c, bits), Extern(FileRead)]
               + PortWrites(Flatten(sector[..GroupCount(if filesize < SectorSize then filesize else SectorSize)]))
               + [Extern(FileNextSector)]))
  {
    StepContinues(filesize, c, bits, answers, sector);
  }

  lemma ExhaustedEndsLoop(size: FileSize, c0: nat, filesize: int, c: nat, bits: int, answers: seq<ReadResult>, trace: seq<Event>)
    requires filesize <= 0
    requires Continues(size, c0, filesize, c, bits, answers, trace)
    ensures StreamFrom(size, c0, bits, answers) == Outcome(true, trace)
  {
  }
}
