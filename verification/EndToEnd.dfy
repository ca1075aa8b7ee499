/** From the bytes on the line to the image in flash: a whole session of one file, and what every run
    of the receiver keeps. */
module EndToEnd {
  import opened Machine
  import opened Framing
  import opened Flash
  import opened Session
  import opened Ledger
  import opened FileImage
  import opened Announce
  import opened TwoParty
  import opened Delivery
  import opened Texts
  import opened FirstFile
  import R = Receiver
  import B = Batch
  import W = Sweeps
  import A = Archive
  import J = Journal

  /** The frames of a session that sends one file, each with a trailer of its own. */
  function Frames(c: Setting, crc: nat -> (byte, byte)): (fs: seq<Frame>)
    requires Sendable(c)
    ensures |fs| == |c.file| + 2 && forall f :: f in fs ==> WellFormed(f)
    ensures forall k :: 0 <= k <= |c.file| + 1 ==> fs[k] == FrameOf(c, k, crc(k))
  {
    var fs := seq(|c.file| + 2, i requires 0 <= i <= |c.file| + 1 => FrameOf(c, i, crc(i)));
    assert forall k :: 0 <= k < |fs| ==> fs[k] == FrameOf(c, k, crc(k)) && WellFormed(fs[k]);
    fs
  }

  /** A word of the file failed to verify. */
  ghost predicate VerificationFailed(c: Setting, es: seq<Event>)
    requires Sane(c) && AllGenuine(es)
  {
    var h := BookOf(c, es);
    StateOf(c, es).result == Some(-2) && h.files == 0 && h.taken != [] && TookPrefix(c, h)
  }

  /** A failed verification, or the first `k` packets taken. */
  ghost predicate Taking(c: Setting, es: seq<Event>, k: nat)
    requires Sane(c) && AllGenuine(es)
  {
    var t, h := StateOf(c, es), BookOf(c, es);
    VerificationFailed(c, es) || (t.result.None? && h.files == 0 && |h.taken| == k && TookPrefix(c, h))
  }

  /** A data packet in sequence ends the session only by a failed verification, and the filename
      packet of a file that fits does not. */
  lemma OnlyVerificationFails(c: Setting, s: State, e: Event, k: nat, name: seq<byte>, n: nat)
    requires Sends(c, name, n) && Shaped(s) && s.result.None? && s.packets == k < |c.file|
    requires Genuine(e) && e.packet.Data? && InSequence(s, e) && Payload(e) == c.file[k]
    ensures var t := Step(c.hw, s, e); t.result.None? || (t.result == Some(-2) && k > 0)
  {
    hide Step, Names;
    if k == 0 {
      HeaderPacket(c.hw, s, e, name, n);
    } else {
      OnlyBreaks(c.hw, s, e);
    }
  }

  lemma TakingMore(c: Setting, es: seq<Event>, e: Event, k: nat, crc: (byte, byte), name: seq<byte>, n: nat)
    requires Sends(c, name, n) && AllGenuine(es) && Genuine(e) && Taking(c, es, k)
    requires k < |c.file| && Sees(e, FrameOf(c, k, crc))
    ensures AllGenuine(es + [e]) && Taking(c, es + [e], k + 1)
  {
    hide Exec, Log, Step, Observe, Count, Added, Sees, FrameOf, Payload, TookPrefix, DataEffect;
    var s, h := StateOf(c, es), BookOf(c, es);
    if s.result.None? {
      Counts(c.hw, c.start, es);
      Snoc(c, es, e);
      FrameSeen(c, e, k, crc);
      OnlyVerificationFails(c, s, e, k, name, n);
      BlockOutcome(c, World(es, [], [], 0), e, k, crc);
      DataStep(c.hw, s, e);
      ObservedData(s, e, StateOf(c, es + [e]), h);
    } else {
      Stays(c, es, e);
    }
  }

  lemma {:induction false} TakesAll(c: Setting, es: seq<Event>, k: nat, crc: nat -> (byte, byte), name: seq<byte>, n: nat)
    requires Sends(c, name, n) && AllGenuine(es) && |es| == k <= |c.file|
    requires forall i :: 0 <= i < k ==> Sees(es[i], FrameOf(c, i, crc(i)))
    ensures Taking(c, es, k)
    decreases k
  {
    hide Taking, Sends, Sees, FrameOf, Exec, Log, AllGenuine, Genuine, Sane;
    SendsSane(c, name, n);
    if k == 0 {
      NoneTaken(c, es);
    } else {
      FrontGenuine(es);
      TakesAll(c, es[..k - 1], k - 1, crc, name, n);
      TakingMore(c, es[..k - 1], es[k - 1], k - 1, crc(k - 1), name, n);
    }
  }

  lemma FrontGenuine(es: seq<Event>)
    requires AllGenuine(es) && es != []
    ensures AllGenuine(es[..|es| - 1]) && Genuine(es[|es| - 1]) && es[..|es| - 1] + [es[|es| - 1]] == es
  {
  }

  lemma SendsSane(c: Setting, name: seq<byte>, n: nat)
    requires Sends(c, name, n)
    ensures Sane(c) && Sendable(c) && Proper(c.file) && n < FLASH_SIZE
  {
  }

  lemma NoneTaken(c: Setting, es: seq<Event>)
    requires Sane(c) && es == []
    ensures AllGenuine(es) && Taking(c, es, 0)
  {
  }

  lemma Stays(c: Setting, es: seq<Event>, e: Event)
    requires Sane(c) && AllGenuine(es) && Genuine(e) && StateOf(c, es).result.Some?
    ensures AllGenuine(es + [e]) && StateOf(c, es + [e]) == StateOf(c, es) && BookOf(c, es + [e]) == BookOf(c, es)
  {
    hide Step, Exec, Log;
    Extended(c.hw, c.start, es, e);
  }

  /** The announced size returned and the file in flash; or a failed verification, and the file in flash up to
      the word that failed. */
  ghost predicate Ends(c: Setting, t: State, n: nat)
    requires Proper(c.file)
  {
    && Shows(t.name, c.file[0])
    && if t.result == Some(-2) then HasPrefix(c, t, n) && NextWrong(c, t) else t.result == Some(n) && Has(c, t, n)
  }

  /** A failed verification is the end. */
  lemma FailureStays(c: Setting, es: seq<Event>, eot: Event, last: Event, name: seq<byte>, n: nat)
    requires Sends(c, name, n) && AllGenuine(es) && VerificationFailed(c, es) && Genuine(eot) && Genuine(last)
    ensures AllGenuine(es + [eot] + [last]) && Ends(c, StateOf(c, es + [eot] + [last]), n)
  {
    hide Exec, Log, HasPrefix, NextWrong, TookPrefix, Balanced, Budgeted, Numbered, Shows, Content, Kept;
    ImageHolds(c.hw, c.start, es);
    Counts(c.hw, c.start, es);
    BooksHold(c.hw, c.start, es);
    TakenIsStored(c, es, name, n);
    Stays(c, es, eot);
    Stays(c, es + [eot], last);
  }

  lemma LastTwo(c: Setting, es: seq<Event>, eot: Event, last: Event, crc: (byte, byte), name: seq<byte>, n: nat)
    requires Sends(c, name, n) && AllGenuine(es) && Taking(c, es, |c.file|) && !VerificationFailed(c, es)
    requires Genuine(eot) && eot.packet == EndOfFile && Genuine(last) && Sees(last, FrameOf(c, |c.file| + 1, crc))
    ensures AllGenuine(es + [eot] + [last]) && Ends(c, StateOf(c, es + [eot] + [last]), n)
  {
    hide Exec, Log, Step, Observe, Has, TookPrefix, Sees, FrameOf;
    var all := es + [eot] + [last];
    Counts(c.hw, c.start, es);
    Snoc(c, es, eot);
    EotStep(c.hw, StateOf(c, es), eot, BookOf(c, es));
    ClosingSeen(c, last, crc);
    Snoc(c, es + [eot], last);
    ClosingStep(c.hw, StateOf(c, es + [eot]), last, BookOf(c, es + [eot]));
    SameTook(c, BookOf(c, es), BookOf(c, all));
    SizeFits(c, es + [eot]);
    AllTaken(c, all, name, n);
    HasSize(c, StateOf(c, all), n);
  }

  lemma HasSize(c: Setting, t: State, n: nat)
    requires Proper(c.file) && Has(c, t, n)
    ensures t.size == n && Shows(t.name, c.file[0])
  {
  }

  lemma SessionParts(c: Setting, es: seq<Event>, crc: nat -> (byte, byte))
    requires Sendable(c) && SeesAll(es, Frames(c, crc))
    ensures |es| == |c.file| + 2
    ensures forall i :: 0 <= i <= |c.file| + 1 ==> Sees(es[i], FrameOf(c, i, crc(i)))
    ensures es[|c.file|].packet == EndOfFile
    ensures es[..|c.file|] + [es[|c.file|]] + [es[|c.file| + 1]] == es
  {
    hide Frames, Encode;
    var fs := Frames(c, crc);
    forall i | 0 <= i <= |c.file| + 1
      ensures Sees(es[i], FrameOf(c, i, crc(i)))
    {
      assert Sees(es[i], fs[i]);
    }
  }

  lemma SessionOutcome(c: Setting, es: seq<Event>, crc: nat -> (byte, byte), name: seq<byte>, n: nat)
    requires Sends(c, name, n) && AllGenuine(es) && Sendable(c) && SeesAll(es, Frames(c, crc))
    ensures Ends(c, StateOf(c, es), n)
  {
    hide Taking, Ends, Sees, Frames, FrameOf, SeesAll, Exec, Log, Announces, VerificationFailed;
    SessionParts(c, es, crc);
    var k := |c.file|;
    TakesAll(c, es[..k], k, crc, name, n);
    if VerificationFailed(c, es[..k]) {
      FailureStays(c, es[..k], es[k], es[k + 1], name, n);
    } else {
      LastTwo(c, es[..k], es[k], es[k + 1], crc(k + 1), name, n);
    }
  }

  /** A whole transfer, from bytes to flash: a line that carries the encoding of one file's session, with any
      trailers, any empty filename packet at the end and any pauses shorter than the timeout, makes the
      receiver return the announced size with the file in flash, unless a word fails to verify. */
  lemma TransferOverLine(c: Setting, line: Line, pos: nat, at: seq<nat>, crc: nat -> (byte, byte),
      buf: seq<byte>, name: seq<byte>, n: nat)
    requires Sends(c, name, n) && |buf| == PACKET_BUFFER && Sendable(c)
    requires Carries(line, pos, Stream(Frames(c, crc)), at)
    ensures Ends(c, Run(c.hw, line, Position(c.start, buf, pos), |c.file| + 2).s, n)
  {
    hide Run, Exec, Carries, Ends, Events, SeesAll;
    var fs := Frames(c, crc);
    FramingRoundTrip(line, pos, at, fs, buf);
    RunIsExec(c.hw, line, Position(c.start, buf, pos), |fs|);
    SessionOutcome(c, Events(line, pos, buf, |fs|), crc, name, n);
  }

  lemma HasRest(c: Setting, t: State, name: seq<byte>, n: nat)
    requires Sends(c, name, n) && Ends(c, t, n) && |t.name| == FILE_NAME_LENGTH + 1
    ensures |name| < FILE_NAME_LENGTH && t.name[..|name| + 1] == name + [0] && ElsewhereSame(c.start.flash, t.flash, n)
  {
    hide ElsewhereSame, InFlash, NextWrong;
    var p := c.file[0];
    assert name + [0] <= p;
    forall k | 0 <= k <= |name|
      ensures t.name[k] == (name + [0])[k]
    {
      assert p[..k] == name[..k];
    }
  }

  /** The same of the receiver's own code. */
  method Download(y: R.Ymodem, ghost c: Setting, ghost at: seq<nat>, ghost crc: nat -> (byte, byte),
      ghost name: seq<byte>, ghost n: nat, rounds: nat)
    returns (result: Option<int>)
    requires y.Valid() && y.hw == c.hw && Sends(c, name, n) && Sendable(c)
    requires c.start == R.Ymodem.Opened(y.View(None)) && rounds == |c.file| + 2
    requires Carries(y.line, y.pos, Stream(Frames(c, crc)), at)
    modifies y, y.fileName, y.fileSize, y.tab1024, y.packetData
    ensures result == Some(-2) || result == Some(n)
    ensures result == Some(n) ==> Has(c, y.View(result), n)
    ensures result == Some(-2) ==> HasPrefix(c, y.View(result), n) && NextWrong(c, y.View(result))
    ensures y.fileName[..|name| + 1] == name + [0] && ElsewhereSame(old(y.flash), y.flash, n)
  {
    hide Has, HasPrefix, NextWrong, Sends, Carries, Run, Shows, ElsewhereSame;
    TransferOverLine(c, y.line, y.pos, at, crc, y.packetData[..], name, n);
    ghost var h;
    result, h := y.YmodemReceive(rounds);
    HasRest(c, y.View(result), name, n);
  }

  /** What every run of the receiver keeps, on any line, for any number of receptions. */
  lemma EveryRun(hw: Hardware, line: Line, p: Position, n: nat)
    requires Ready(p) && Fresh(p.s)
    ensures var s, h := Run(hw, line, p, n).s, Log(hw, p.s, Events(line, p.pos, p.buf, n));
            Books(s, h) && Imaged(s, h) && B.Batched(s, h) && B.Forward(s, h) && W.Swept(s, h)
            && A.Archived(s, h) && J.Journaled(hw, p.s, s, h) && Titled(p.s, s, h)
  {
    hide Run, Exec, Log, Books, Imaged, B.Batched, B.Forward, W.Swept, A.Archived, J.Journaled, Titled;
    var es := Events(line, p.pos, p.buf, n);
    RunIsExec(hw, line, p, n);
    BooksHold(hw, p.s, es);
    ImageHolds(hw, p.s, es);
    B.BatchHolds(hw, p.s, es);
    B.ForwardHolds(hw, p.s, es);
    W.SweptHolds(hw, p.s, es);
    A.ArchiveHolds(hw, p.s, es);
    J.JournalHolds(hw, p.s, es);
    TitledHolds(hw, p.s, es);
  }
}
