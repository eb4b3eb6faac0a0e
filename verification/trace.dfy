/** The observable behaviour of the loader as a trace of events. */
module Trace {
  import Host
  import Words

  /** Calls into code outside the loader: the SPI driver and the FAT library. */
  datatype ExternCall =
    | SpiInit
    | FindDrive
    | SdIsHc
    | IsFat32
    | FileOpen(name: string)
    | FileRead
    | FileNextSector

  datatype Event =
    | HostWrite(reg: int, value: int)      // HW_HOST(reg) = value
    | Osd(text: string)                     // OSD_Puts(text); Display.Puts says what reaches the screen
    | ProgressBar(counter: int, bits: int)  // OSD_ProgressBar(counter, bits)
    | Extern(call: ExternCall)

  /** Result of one `Boot()` call: `loaded` is a return value of 1, and `trace`
      what it did, in order. */
  datatype Outcome = Outcome(loaded: bool, trace: seq<Event>)

  predicate IsPortWrite(e: Event) {
    e.HostWrite? && e.reg == Host.BOOTDATA
  }

  /** One BOOTDATA write per byte, in order. */
  function PortWrites(bs: seq<Words.byte>): (es: seq<Event>)
    ensures |es| == |bs|
  {
    if |bs| == 0 then [] else PortWrites(bs[..|bs| - 1]) + [HostWrite(Host.BOOTDATA, bs[|bs| - 1])]
  }

  /** The values written to BOOTDATA, in order. */
  function PortBytes(t: seq<Event>): seq<int>
  {
    if |t| == 0 then []
    else PortBytes(t[..|t| - 1]) + (if IsPortWrite(t[|t| - 1]) then [t[|t| - 1].value] else [])
  }

  predicate IsCall(e: Event) {
    e.Extern? || e.ProgressBar?
  }

  /** The calls into the display's progress bar and into external code, in order. */
  function Calls(t: seq<Event>): seq<Event>
  {
    if |t| == 0 then [] else Calls(t[..|t| - 1]) + (if IsCall(t[|t| - 1]) then [t[|t| - 1]] else [])
  }

  /** The texts printed, in order. */
  function Texts(t: seq<Event>): seq<string>
  {
    if |t| == 0 then [] else Texts(t[..|t| - 1]) + (if t[|t| - 1].Osd? then [t[|t| - 1].text] else [])
  }

  lemma {:induction false} PortBytesAppend(a: seq<Event>, b: seq<Event>)
    ensures PortBytes(a + b) == PortBytes(a) + PortBytes(b)
    decreases |b|
  {
    if |b| > 0 {
      assert (a + b)[..|a + b| - 1] == a + b[..|b| - 1];
      PortBytesAppend(a, b[..|b| - 1]);
    } else {
      assert a + b == a;
    }
  }

  lemma {:induction false} CallsAppend(a: seq<Event>, b: seq<Event>)
    ensures Calls(a + b) == Calls(a) + Calls(b)
    decreases |b|
  {
    if |b| > 0 {
      assert (a + b)[..|a + b| - 1] == a + b[..|b| - 1];
      CallsAppend(a, b[..|b| - 1]);
    } else {
      assert a + b == a;
    }
  }

  lemma {:induction false} TextsAppend(a: seq<Event>, b: seq<Event>)
    ensures Texts(a + b) == Texts(a) + Texts(b)
    decreases |b|
  {
    if |b| > 0 {
      assert (a + b)[..|a + b| - 1] == a + b[..|b| - 1];
      TextsAppend(a, b[..|b| - 1]);
    } else {
      assert a + b == a;
    }
  }

  /** Reading the port back from a run of port writes gives the bytes written. */
  lemma {:induction false} PortBytesOfWrites(bs: seq<Words.byte>)
    ensures PortBytes(PortWrites(bs)) == bs
    ensures Calls(PortWrites(bs)) == []
    ensures Texts(PortWrites(bs)) == []
  {
    if |bs| > 0 {
      var init := bs[..|bs| - 1];
      PortBytesOfWrites(init);
      PortBytesAppend(PortWrites(init), [HostWrite(Host.BOOTDATA, bs[|bs| - 1])]);
      CallsAppend(PortWrites(init), [HostWrite(Host.BOOTDATA, bs[|bs| - 1])]);
      TextsAppend(PortWrites(init), [HostWrite(Host.BOOTDATA, bs[|bs| - 1])]);
      assert init + [bs[|bs| - 1]] == bs;
    }
  }

  lemma {:induction false} PortWritesAppend(a: seq<Words.byte>, b: seq<Words.byte>)
    ensures PortWrites(a + b) == PortWrites(a) + PortWrites(b)
    decreases |b|
  {
    if |b| > 0 {
      assert (a + b)[..|a + b| - 1] == a + b[..|b| - 1];
      PortWritesAppend(a, b[..|b| - 1]);
    } else {
      assert a + b == a;
    }
  }

  /** Events that are neither port writes, calls nor texts leave every projection empty;
      a single event contributes at most itself. */
  lemma Single(e: Event)
    ensures PortBytes([e]) == (if IsPortWrite(e) then [e.value] else [])
    ensures Calls([e]) == (if IsCall(e) then [e] else [])
    ensures Texts([e]) == (if e.Osd? then [e.text] else [])
  {
    assert [e][..0] == [];
  }

  /** Projections of four consecutive pieces of a trace, given what each of the
      first three contributes. */
  lemma PortBytesOfFour(a: seq<Event>, b: seq<Event>, c: seq<Event>, d: seq<Event>, pa: seq<int>, pb: seq<int>, pc: seq<int>)
    requires PortBytes(a) == pa && PortBytes(b) == pb && PortBytes(c) == pc
    ensures PortBytes(a + b + c + d) == pa + pb + pc + PortBytes(d)
  {
    PortBytesAppend(a + b + c, d);
    PortBytesAppend(a + b, c);
    PortBytesAppend(a, b);
  }

  lemma CallsOfFour(a: seq<Event>, b: seq<Event>, c: seq<Event>, d: seq<Event>, pa: seq<Event>, pb: seq<Event>, pc: seq<Event>)
    requires Calls(a) == pa && Calls(b) == pb && Calls(c) == pc
    ensures Calls(a + b + c + d) == pa + pb + pc + Calls(d)
  {
    CallsAppend(a + b + c, d);
    CallsAppend(a + b, c);
    CallsAppend(a, b);
  }

  lemma TextsOfFour(a: seq<Event>, b: seq<Event>, c: seq<Event>, d: seq<Event>, pa: seq<string>, pb: seq<string>, pc: seq<string>)
    requires Texts(a) == pa && Texts(b) == pb && Texts(c) == pc
    ensures Texts(a + b + c + d) == pa + pb + pc + Texts(d)
  {
    TextsAppend(a + b + c, d);
    TextsAppend(a + b, c);
    TextsAppend(a, b);
  }

  /** A trace without port writes has an empty port stream. */
  lemma {:induction false} NoPortWrites(t: seq<Event>)
    requires forall i :: 0 <= i < |t| ==> !IsPortWrite(t[i])
    ensures PortBytes(t) == []
  {
    if |t| > 0 {
      NoPortWrites(t[..|t| - 1]);
    }
  }

  /** A trace of calls only is its own call projection. */
  lemma {:induction false} OnlyCalls(t: seq<Event>)
    requires forall i :: 0 <= i < |t| ==> IsCall(t[i])
    ensures Calls(t) == t
  {
    if |t| > 0 {
      OnlyCalls(t[..|t| - 1]);
    }
  }

  /** A trace without calls has an empty call projection. */
  lemma {:induction false} NoCalls(t: seq<Event>)
    requires forall i :: 0 <= i < |t| ==> !IsCall(t[i])
    ensures Calls(t) == []
  {
    if |t| > 0 {
      NoCalls(t[..|t| - 1]);
    }
  }

  /** A trace without OSD text has an empty text projection. */
  lemma {:induction false} NoTexts(t: seq<Event>)
    requires forall i :: 0 <= i < |t| ==> !t[i].Osd?
    ensures Texts(t) == []
  {
    if |t| > 0 {
      NoTexts(t[..|t| - 1]);
    }
  }

  /** The values written to the host register at offset `reg`, in order. */
  function Writes(t: seq<Event>, reg: int): seq<int>
  {
    if |t| == 0 then []
    else
      var e := t[|t| - 1];
      Writes(t[..|t| - 1], reg) + (if e.HostWrite? && e.reg == reg then [e.value] else [])
  }

  lemma {:induction false} WritesAppend(a: seq<Event>, b: seq<Event>, reg: int)
    ensures Writes(a + b, reg) == Writes(a, reg) + Writes(b, reg)
    decreases |b|
  {
    if |b| > 0 {
      assert (a + b)[..|a + b| - 1] == a + b[..|b| - 1];
      WritesAppend(a, b[..|b| - 1], reg);
    } else {
      assert a + b == a;
    }
  }

  lemma SingleWrite(e: Event, reg: int)
    ensures Writes([e], reg) == (if e.HostWrite? && e.reg == reg then [e.value] else [])
  {
    assert [e][..0] == [];
  }

  /** A trace without host writes writes no register. */
  lemma {:induction false} NoHostWrites(t: seq<Event>, reg: int)
    requires forall i :: 0 <= i < |t| ==> !t[i].HostWrite?
    ensures Writes(t, reg) == []
  {
    if |t| > 0 {
      NoHostWrites(t[..|t| - 1], reg);
    }
  }

  /** Port writes reach BOOTDATA and no other register. */
  lemma {:induction false} PortWritesOnlyData(bs: seq<Words.byte>, reg: int)
    requires reg != Host.BOOTDATA
    ensures Writes(PortWrites(bs), reg) == []
  {
    if |bs| > 0 {
      PortWritesOnlyData(bs[..|bs| - 1], reg);
    }
  }
}
