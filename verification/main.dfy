/** The firmware's entry point, `main()` (rtl/loader/firmware/boot.c:107-141):
    start-up register writes, then `Boot()` retried for ever, each attempt
    followed by a status line. */
module Firmware {
  import opened Trace
  import opened Storage
  import Host
  import Loader
  import Stream
  import Display

  const DoneText: string := "Loading BIOS done\n"
  const FailedText: string := "Loading BIOS failed\n"

  /** Before anything else: reset the OCMS core, release it at once while the
      loader keeps the SD card, release the mouse buttons. */
  const Startup: seq<Event> :=
    [HostWrite(Host.CTRL, Host.CTRLF_RESET), HostWrite(Host.CTRL, Host.CTRLF_SDCARD), HostWrite(Host.MOUSEBUTTONS, 3)]

  /** The status line for the value `Boot()` returned. */
  function Status(loaded: bool): string
  {
    if loaded then DoneText else FailedText
  }

  /** One pass of `while (1)`: a `Boot()` against the card as it then is, and
      the status line for its result. */
  function Attempt(card: Card): seq<Event>
  {
    var o := Loader.Boot(card);
    o.trace + [Osd(Status(o.loaded))]
  }

  /** The first |cards| passes of the loop, the i-th one against cards[i]. */
  function Attempts(cards: seq<Card>): seq<Event>
  {
    if |cards| == 0 then [] else Attempts(cards[..|cards| - 1]) + Attempt(cards[|cards| - 1])
  }

  /** What `main()` has done after |cards| passes of its endless loop. */
  function Run(cards: seq<Card>): seq<Event>
  {
    Startup + Attempts(cards)
  }

  predicate IsStatus(text: string) {
    text == DoneText || text == FailedText
  }

  /** The status lines among the texts shown, in order. */
  function StatusLines(ts: seq<string>): seq<string>
  {
    if |ts| == 0 then [] else StatusLines(ts[..|ts| - 1]) + (if IsStatus(ts[|ts| - 1]) then [ts[|ts| - 1]] else [])
  }

  lemma {:induction false} StatusLinesAppend(a: seq<string>, b: seq<string>)
    ensures StatusLines(a + b) == StatusLines(a) + StatusLines(b)
    decreases |b|
  {
    if |b| > 0 {
      assert (a + b)[..|a + b| - 1] == a + b[..|b| - 1];
      StatusLinesAppend(a, b[..|b| - 1]);
    } else {
      assert a + b == a;
    }
  }

  lemma {:induction false} NoStatusLines(ts: seq<string>)
    requires forall i :: 0 <= i < |ts| ==> !IsStatus(ts[i])
    ensures StatusLines(ts) == []
  {
    if |ts| > 0 {
      NoStatusLines(ts[..|ts| - 1]);
    }
  }

  /** None of the messages of `Boot()` is a status line. */
  lemma LoaderTextsAreNotStatus()
    ensures !IsStatus(Loader.InitText) && !IsStatus(Loader.SdhcText) && !IsStatus(Loader.Fat32Text)
    ensures !IsStatus(Loader.TryingText) && !IsStatus(Loader.LoadingText) && !IsStatus(Stream.ReadFailedText)
  {
  }

  lemma OpeningShowsNoStatus(card: Card)
    ensures StatusLines(Texts(Loader.Opening(card))) == []
  {
    LoaderTextsAreNotStatus();
    Loader.OpeningTexts(card);
    NoStatusLines(Texts(Loader.Opening(card)));
  }

  lemma BootShowsNoStatus(card: Card)
    ensures StatusLines(Texts(Loader.Boot(card).trace)) == []
  {
    LoaderTextsAreNotStatus();
    Loader.BootTexts(card);
    if !card.spiReady || !card.driveFound {
      NoStatusLines([Loader.InitText]);
    } else {
      OpeningShowsNoStatus(card);
      if card.image.Found? {
        var tail := [Loader.LoadingText] + (if Loader.Boot(card).loaded then [] else [Stream.ReadFailedText]);
        NoStatusLines(tail);
        StatusLinesAppend(Texts(Loader.Opening(card)), tail);
        assert Texts(Loader.Boot(card).trace) == Texts(Loader.Opening(card)) + tail;
      }
    }
  }

  /** One pass adds exactly its status line, and writes no register but BOOTDATA. */
  lemma AttemptProjections(card: Card)
    ensures StatusLines(Texts(Attempt(card))) == [Status(Loader.Boot(card).loaded)]
    ensures forall reg :: reg != Host.BOOTDATA ==> Writes(Attempt(card), reg) == []
  {
    var o := Loader.Boot(card);
    TextsAppend(o.trace, [Osd(Status(o.loaded))]);
    Single(Osd(Status(o.loaded)));
    BootShowsNoStatus(card);
    StatusLinesAppend(Texts(o.trace), [Status(o.loaded)]);
    assert StatusLines([Status(o.loaded)]) == [Status(o.loaded)] by {
      assert [Status(o.loaded)][..0] == [];
    }
    forall reg | reg != Host.BOOTDATA
      ensures Writes(Attempt(card), reg) == []
    {
      WritesAppend(o.trace, [Osd(Status(o.loaded))], reg);
      SingleWrite(Osd(Status(o.loaded)), reg);
      Loader.BootWritesOnlyData(card, reg);
    }
  }

  /** The status line of each attempt, in order: the reference for what the
      loop shows. */
  predicate AnswersEach(lines: seq<string>, cards: seq<Card>) {
    && |lines| == |cards|
    && forall i :: 0 <= i < |cards| ==> lines[i] == Status(Loader.Boot(cards[i]).loaded)
  }

  lemma AnswersAppend(lines: seq<string>, cards: seq<Card>, card: Card)
    requires AnswersEach(lines, cards)
    ensures AnswersEach(lines + [Status(Loader.Boot(card).loaded)], cards + [card])
  {
  }

  /** Appending a pass that shows one status line appends that line. */
  lemma OneMoreLine(before: seq<Event>, pass: seq<Event>, line: string)
    requires StatusLines(Texts(pass)) == [line]
    ensures StatusLines(Texts(before + pass)) == StatusLines(Texts(before)) + [line]
  {
    TextsAppend(before, pass);
    StatusLinesAppend(Texts(before), Texts(pass));
  }

  lemma AttemptsUnfold(cards: seq<Card>)
    requires |cards| > 0
    ensures Attempts(cards) == Attempts(cards[..|cards| - 1]) + Attempt(cards[|cards| - 1])
  {
  }

  lemma AttemptsStep(cards: seq<Card>)
    requires |cards| > 0
    ensures StatusLines(Texts(Attempts(cards)))
         == StatusLines(Texts(Attempts(cards[..|cards| - 1]))) + [Status(Loader.Boot(cards[|cards| - 1]).loaded)]
  {
    var init := cards[..|cards| - 1];
    var card := cards[|cards| - 1];
    AttemptProjections(card);
    AttemptsUnfold(cards);
    OneMoreLine(Attempts(init), Attempt(card), Status(Loader.Boot(card).loaded));
  }

  /** After each `Boot()` the loop shows exactly one status line, "done" if it
      returned 1 and "failed" otherwise, and nothing else is a status line. */
  lemma {:induction false} AttemptsStatusLines(cards: seq<Card>)
    ensures AnswersEach(StatusLines(Texts(Attempts(cards))), cards)
  {
    if |cards| > 0 {
      var init := cards[..|cards| - 1];
      AttemptsStatusLines(init);
      AttemptsStep(cards);
      assert cards == init + [cards[|cards| - 1]];
      AnswersAppend(StatusLines(Texts(Attempts(init))), init, cards[|cards| - 1]);
    }
  }

  /** The loop writes no host register but BOOTDATA. */
  lemma {:induction false} AttemptsWriteOnlyData(cards: seq<Card>, reg: int)
    requires reg != Host.BOOTDATA
    ensures Writes(Attempts(cards), reg) == []
  {
    if |cards| > 0 {
      AttemptsWriteOnlyData(cards[..|cards| - 1], reg);
      AttemptProjections(cards[|cards| - 1]);
      WritesAppend(Attempts(cards[..|cards| - 1]), Attempt(cards[|cards| - 1]), reg);
    }
  }

  /** CTRL is written exactly twice, reset first and then the release that keeps
      the SD card, both before the first `Boot()` and never again however often
      it is retried; the mouse buttons are set to 3 once; and every status line
      answers one attempt. */
  lemma RunProperties(cards: seq<Card>)
    ensures Writes(Run(cards), Host.CTRL) == [Host.CTRLF_RESET, Host.CTRLF_SDCARD]
    ensures Writes(Run(cards)[|Startup|..], Host.CTRL) == []
    ensures Writes(Run(cards), Host.MOUSEBUTTONS) == [3]
    ensures AnswersEach(StatusLines(Texts(Run(cards))), cards)
  {
    AttemptsWriteOnlyData(cards, Host.CTRL);
    AttemptsWriteOnlyData(cards, Host.MOUSEBUTTONS);
    WritesAppend(Startup, Attempts(cards), Host.CTRL);
    WritesAppend(Startup, Attempts(cards), Host.MOUSEBUTTONS);
    StartupWrites();
    AttemptsStatusLines(cards);
    TextsAppend(Startup, Attempts(cards));
    NoTexts(Startup);
    StatusLinesAppend([], Texts(Attempts(cards)));
    assert Run(cards)[|Startup|..] == Attempts(cards);
  }

  lemma StartupWrites()
    ensures Writes(Startup, Host.CTRL) == [Host.CTRLF_RESET, Host.CTRLF_SDCARD]
    ensures Writes(Startup, Host.MOUSEBUTTONS) == [3]
  {
    var a := HostWrite(Host.CTRL, Host.CTRLF_RESET);
    var b := HostWrite(Host.CTRL, Host.CTRLF_SDCARD);
    var m := HostWrite(Host.MOUSEBUTTONS, 3);
    assert Startup == [a] + [b] + [m];
    WritesAppend([a] + [b], [m], Host.CTRL);
    WritesAppend([a], [b], Host.CTRL);
    WritesAppend([a] + [b], [m], Host.MOUSEBUTTONS);
    WritesAppend([a], [b], Host.MOUSEBUTTONS);
    SingleWrite(a, Host.CTRL);
    SingleWrite(b, Host.CTRL);
    SingleWrite(m, Host.CTRL);
    SingleWrite(a, Host.MOUSEBUTTONS);
    SingleWrite(b, Host.MOUSEBUTTONS);
    SingleWrite(m, Host.MOUSEBUTTONS);
  }

  /** One more pass appends its attempt to the run. */
  lemma RunStep(cards: seq<Card>, card: Card)
    ensures Run(cards + [card]) == Run(cards) + Attempt(card)
  {
    AttemptsUnfold(cards + [card]);
    assert (cards + [card])[..|cards|] == cards;
  }

  /** The loop never ends and never takes anything back: whatever passes follow,
      what was done so far stays a prefix of the run, and each further pass
      adds at least its status line. */
  lemma {:induction false} RunExtends(cards: seq<Card>, more: seq<Card>)
    ensures Run(cards) <= Run(cards + more)
    ensures |Run(cards + more)| >= |Run(cards)| + |more|
    decreases |more|
  {
    if |more| == 0 {
      assert cards + more == cards;
    } else {
      var init, last := more[..|more| - 1], more[|more| - 1];
      RunExtends(cards, init);
      RunStep(cards + init, last);
      assert cards + more == (cards + init) + [last];
    }
  }

  /** Every message the firmware prints reaches the display whole. */
  lemma MessagesShownWhole()
    ensures forall m | m in {Loader.InitText, Loader.SdhcText, Loader.Fat32Text, Loader.TryingText,
                             Loader.LoadingText, Stream.ReadFailedText, DoneText, FailedText} :: Display.Puts(m) == m
  {
    forall m | m in {Loader.InitText, Loader.SdhcText, Loader.Fat32Text, Loader.TryingText,
                     Loader.LoadingText, Stream.ReadFailedText, DoneText, FailedText}
      ensures Display.Puts(m) == m
    {
      Display.PutsWholeMessage(m);
    }
  }

  /** One pass of `while (1)`: call `Boot()`, then show its status line. */
  method Pass(card: Card) returns (t: seq<Event>)
    ensures t == Attempt(card)
  {
    var result;
    result, t := Loader.BootAttempt(card);
    if result == 1 {
      t := t + [Osd(DoneText)];
    } else {
      t := t + [Osd(FailedText)];
    }
  }

  /** A pass of the loop keeps the trace equal to the run so far. */
  lemma LoopStep(cards: seq<Card>, i: nat, trace: seq<Event>, t: seq<Event>)
    requires i < |cards| && trace == Startup + Attempts(cards[..i]) && t == Attempt(cards[i])
    ensures trace + t == Startup + Attempts(cards[..i + 1])
  {
    assert cards[..i + 1] == cards[..i] + [cards[i]];
    RunStep(cards[..i], cards[i]);
  }

  /** `main()` as the firmware runs it, for the first |cards| passes of its
      loop: start-up writes, then `Boot()` and a status line per pass. */
  method MainLoop(cards: seq<Card>) returns (trace: seq<Event>)
    ensures trace == Run(cards)
  {
    trace := [HostWrite(Host.CTRL, Host.CTRLF_RESET)];
    trace := trace + [HostWrite(Host.CTRL, Host.CTRLF_SDCARD)];
    trace := trace + [HostWrite(Host.MOUSEBUTTONS, 3)];
    assert trace == Startup + Attempts(cards[..0]);
    var i := 0;
    while i < |cards|
      invariant 0 <= i <= |cards|
      invariant trace == Startup + Attempts(cards[..i])
    {
      var t := Pass(cards[i]);
      LoopStep(cards, i, trace, t);
      trace := trace + t;
      i := i + 1;
    }
    assert cards[..|cards|] == cards;
  }
}
