/** The receiver and a stop-and-wait sender over two lines that keep order but may lose whole frames
    and single reply bytes, from the filename packet of a file to the empty one that ends the session. */
module TwoParty {
  import opened Machine
  import opened Framing
  import opened Flash
  import opened Session
  import opened Ledger
  import opened FileImage

  /** The payloads of a file in YMODEM form: the filename packet, which is not the empty one, and the
      data packets. */
  predicate Proper(file: seq<seq<byte>>) {
    && file != [] && file[0] != [] && file[0][0] != 0
    && forall i :: 0 <= i < |file| ==> |file[i]| == PACKET_SIZE || |file[i]| == PACKET_1K_SIZE
  }

  /** The payload of an empty filename packet. */
  predicate Final(payload: seq<byte>) {
    (|payload| == PACKET_SIZE || |payload| == PACKET_1K_SIZE) && payload[0] == 0
  }

  /** A receiver, its session's start, and what is sent to it: a file and an empty filename packet. */
  datatype Setting = Setting(hw: Hardware, start: State, file: seq<seq<byte>>, closing: seq<byte>)

  predicate Sendable(c: Setting) {
    Proper(c.file) && Final(c.closing)
  }

  ghost predicate Sane(c: Setting) {
    Fresh(c.start) && Sendable(c)
  }

  /** Frame `i` of a session with the trailer `crc`: the file's packets, the EOT, the empty filename packet. The
      sequence byte is the low byte of the packet's number in its file. */
  function FrameOf(c: Setting, i: nat, crc: (byte, byte)): (f: Frame)
    requires Sendable(c) && i <= |c.file| + 1
    ensures WellFormed(f)
  {
    if i < |c.file| then Block(i % 0x100, c.file[i], crc)
    else if i == |c.file| then Ending
    else Block(0, c.closing, crc)
  }

  /** `seen` is what the receiver got so far; `lane` numbers the frames on their way to it, `back`
      holds the replies on their way to the sender, which is at frame `at`, or behind the last one. */
  datatype World = World(seen: seq<Event>, lane: seq<nat>, back: seq<byte>, at: nat)

  datatype Move =
    | Send                     // the sender puts its current frame on the line, as often as it likes
    | Hear                     // the sender takes a reply; an ACK moves it to the next frame
    | LoseFrame(k: nat)
    | LoseReply(k: nat)
    // the receiver gets the oldest frame, whatever trailer it was sent with and whatever its buffer held
    | Arrive(e: Event, crc: (byte, byte))
    | Stall(buf: seq<byte>)    // a reception fails

  ghost function StateOf(c: Setting, seen: seq<Event>): (s: State)
    requires Sane(c) && AllGenuine(seen)
    ensures Shaped(s)
  {
    Exec(c.hw, c.start, seen)
  }

  ghost function BookOf(c: Setting, seen: seq<Event>): History
    requires Sane(c) && AllGenuine(seen)
  {
    Log(c.hw, c.start, seen)
  }

  /** The session goes on. */
  ghost predicate Listening(c: Setting, w: World)
    requires Sane(c) && AllGenuine(w.seen)
  {
    StateOf(c, w.seen).result.None?
  }

  ghost predicate Enabled(c: Setting, w: World, m: Move)
    requires Sane(c)
  {
    && AllGenuine(w.seen)
    && match m
       case Send => w.at <= |c.file| + 1
       case Hear => w.back != []
       case LoseFrame(k) => k < |w.lane|
       case LoseReply(k) => k < |w.back|
       case Arrive(e, crc) =>
         Listening(c, w) && w.lane != [] && w.lane[0] <= |c.file| + 1 && Sees(e, FrameOf(c, w.lane[0], crc))
       case Stall(buf) => Listening(c, w) && |buf| == PACKET_BUFFER
  }

  function Drop<T>(q: seq<T>, k: nat): seq<T>
    requires k < |q|
  {
    q[..k] + q[k + 1..]
  }

  lemma SeesGenuine(e: Event, f: Frame)
    requires WellFormed(f) && Sees(e, f)
    ensures Genuine(e)
  {
  }

  /** The receiver handles `e`: its new replies go on the line. */
  ghost function Handle(c: Setting, w: World, e: Event, lane: seq<nat>): World
    requires Sane(c) && AllGenuine(w.seen) && Genuine(e)
  {
    var seen := w.seen + [e];
    var sent := StateOf(c, seen).replies;
    var before := StateOf(c, w.seen).replies;
    World(seen, lane, w.back + (if |before| <= |sent| then sent[|before|..] else []), w.at)
  }

  ghost function Apply(c: Setting, w: World, m: Move): World
    requires Sane(c) && Enabled(c, w, m)
  {
    match m
    case Send => w.(lane := w.lane + [w.at])
    case Hear => w.(back := w.back[1..], at := if w.back[0] == ACK && w.at < |c.file| + 2 then w.at + 1 else w.at)
    case LoseFrame(k) => w.(lane := Drop(w.lane, k))
    case LoseReply(k) => w.(back := Drop(w.back, k))
    case Arrive(e, crc) =>
      SeesGenuine(e, FrameOf(c, w.lane[0], crc));
      Handle(c, w, e, w.lane[1..])
    case Stall(buf) => Handle(c, w, Event(Failed, buf), w.lane)
  }

  /** The worlds that `ms` leads to from `w`, when every move is possible in its turn. */
  ghost predicate Leads(c: Setting, w: World, ms: seq<Move>, v: World)
    requires Sane(c)
    decreases |ms|
  {
    if ms == [] then v == w
    else
      Enabled(c, w, ms[0]) && Leads(c, Apply(c, w, ms[0]), ms[1..], v)
  }

  const BEGINNING: World := World([], [], [], 0)

  // ---------------------------------------------------------------------------------------------
  // What holds in every world

  /** The receiver took exactly the first packets of the file, in order; one that ended the session is the
      next of them. */
  ghost predicate TookPrefix(c: Setting, h: History)
    requires Sane(c)
  {
    && |h.taken| <= |c.file| && (forall k :: 0 <= k < |h.taken| ==> h.taken[k].payload == c.file[k])
    && (h.broken != [] ==> |h.taken| < |c.file| && h.broken == c.file[|h.taken|])
  }

  /** Receiver and sender are in step: the receiver has taken as many packets as the sender's index
      says or one more; every ACK not heard yet accounts for one of them; and the frames on the line
      are in order, none older than the packet taken last, none newer than the sender's. */
  ghost predicate InStep(c: Setting, w: World, r: nat)
    requires Sane(c)
  {
    && w.at <= r <= w.at + 1 && r <= |c.file|
    && w.at + Count(ACK, w.back) <= r
    && (forall i :: 0 <= i < |w.lane| ==> r <= w.lane[i] + 1 && w.lane[i] <= w.at)
    && (forall i, j :: 0 <= i < j < |w.lane| ==> w.lane[i] <= w.lane[j])
  }

  /** The EOT was received and every packet of the file taken before it; only EOTs and empty filename packets
      are on the line; a session that has returned gave the size, or 0 after six failures. */
  ghost predicate Over(c: Setting, w: World)
    requires Sane(c) && AllGenuine(w.seen)
  {
    var s, h := StateOf(c, w.seen), BookOf(c, w.seen);
    && Finished(c, h) && |c.file| <= w.at
    && (forall i :: 0 <= i < |w.lane| ==> |c.file| <= w.lane[i])
    && (s.result.Some? ==> s.result == Some(s.size) || s.result == Some(0))
  }

  ghost predicate Finished(c: Setting, h: History)
    requires Sane(c)
  {
    !h.open && |h.sizes| == 1 && h.broken == [] && |h.taken| == |c.file| && TookPrefix(c, h)
  }

  ghost predicate Coupled(c: Setting, w: World)
    requires Sane(c)
  {
    && AllGenuine(w.seen)
    && (var h := BookOf(c, w.seen);
        if h.files == 0 then TookPrefix(c, h) && InStep(c, w, |h.taken|) else Over(c, w))
  }

  lemma {:induction false} CountConcat(b: byte, x: seq<byte>, y: seq<byte>)
    ensures Count(b, x + y) == Count(b, x) + Count(b, y)
    decreases |y|
  {
    if y == [] {
      assert x + y == x;
    } else {
      assert (x + y)[..|x + y| - 1] == x + y[..|y| - 1];
      CountConcat(b, x, y[..|y| - 1]);
    }
  }

  lemma CountDrop(b: byte, q: seq<byte>, k: nat)
    requires k < |q|
    ensures Count(b, q) == Count(b, Drop(q, k)) + if q[k] == b then 1 else 0
  {
    assert q == q[..k] + [q[k]] + q[k + 1..];
    CountConcat(b, q[..k] + [q[k]], q[k + 1..]);
    CountConcat(b, q[..k], [q[k]]);
    CountConcat(b, q[..k], q[k + 1..]);
    assert [q[k]][..0] == [];
  }

  lemma Snoc(c: Setting, seen: seq<Event>, e: Event)
    requires Sane(c) && AllGenuine(seen) && Genuine(e) && StateOf(c, seen).result.None?
    ensures AllGenuine(seen + [e])
    ensures StateOf(c, seen + [e]) == Step(c.hw, StateOf(c, seen), e)
    ensures BookOf(c, seen + [e]) == Observe(StateOf(c, seen), e, StateOf(c, seen + [e]), BookOf(c, seen))
  {
    hide Step, Observe, Exec, Log;
    Extended(c.hw, c.start, seen, e);
  }

  // ---------------------------------------------------------------------------------------------
  // Moves of the lines and of the sender

  lemma CoupledLines(c: Setting, w: World, m: Move)
    requires Sane(c) && Enabled(c, w, m) && Coupled(c, w) && !m.Arrive? && !m.Stall?
    ensures Coupled(c, Apply(c, w, m))
  {
    hide Exec, Log, Finished, TookPrefix, Count;
    match m
    case Send =>
    case Hear =>
      CountDrop(ACK, w.back, 0);
      assert Drop(w.back, 0) == w.back[1..];
    case LoseFrame(k) =>
    case LoseReply(k) =>
      CountDrop(ACK, w.back, k);
  }

  // ---------------------------------------------------------------------------------------------
  // Moves of the receiver

  lemma ObservedData(s: State, e: Event, t: State, h: History)
    requires s.result.None? && Genuine(e) && e.packet.Data? && DataEffect(s, e, t) && (h.open <==> h.taken != [])
    ensures var open, g := InSequence(s, e), Observe(s, e, t, h);
            && g.files == h.files && g.taken == (if open && t.result.None? then h.taken + [Entry(e)] else h.taken)
            && g.broken == if open && t.result.Some? && s.packets != 0 then Payload(e) else h.broken
  {
    assert [] + [Entry(e)] == [Entry(e)];
  }

  /** The replies that a step adds. */
  function Added(s: State, t: State): seq<byte> {
    if |s.replies| <= |t.replies| then t.replies[|s.replies|..] else []
  }

  lemma AddedBy(s: State, t: State, x: seq<byte>)
    requires t.replies == s.replies + x
    ensures Added(s, t) == x
  {
  }

  lemma ShortCounts()
    ensures Count(ACK, [NAK]) == 0 && Count(ACK, [CA, CA]) == 0 && Count(ACK, [CRC16]) == 0
    ensures Count(ACK, [ACK]) == 1 && Count(ACK, [ACK, CRC16]) == 1
  {
    assert [ACK, CRC16][..1] == [ACK];
    assert [CA, CA][..1] == [CA];
  }

  /** The step of the receiver keeps the two parties in step: replies `x` are added, and the oldest
      frame goes when `arrived`. */
  lemma InStepAfter(c: Setting, w: World, v: World, r: nat, x: seq<byte>, arrived: bool)
    requires Sane(c) && InStep(c, w, r)
    requires v.at == w.at && v.back == w.back + x
    requires arrived ==> w.lane != [] && v.lane == w.lane[1..]
    requires !arrived ==> v.lane == w.lane && Count(ACK, x) == 0
    requires Count(ACK, x) == 0 || (Count(ACK, x) == 1 && w.lane[0] == r < |c.file|)
    ensures InStep(c, v, r + Count(ACK, x))
  {
    hide Count;
    CountConcat(ACK, w.back, x);
  }

  lemma StallStep(hw: Hardware, s: State, buf: seq<byte>, h: History)
    requires Shaped(s) && s.result.None? && |buf| == PACKET_BUFFER
    ensures var e := Event(Failed, buf);
            var t := Step(hw, s, e);
            var g := Observe(s, e, t, h);
            && Count(ACK, Added(s, t)) == 0 && t.size == s.size && (t.result.Some? ==> t.result == Some(0))
            && g.taken == h.taken && g.files == h.files && g.broken == h.broken && g.open == h.open && g.sizes == h.sizes
  {
    var t := Step(hw, s, Event(Failed, buf));
    assert t == Fault(s);
    ShortCounts();
    AddedBy(s, t, if t.result.Some? then [CA, CA] else [CRC16]);
  }

  lemma StallKeeps(c: Setting, w: World, buf: seq<byte>)
    requires Sane(c) && Coupled(c, w) && Listening(c, w) && |buf| == PACKET_BUFFER
    ensures Coupled(c, Apply(c, w, Stall(buf)))
  {
    hide Exec, Log, Count, Step, Observe;
    var e := Event(Failed, buf);
    Snoc(c, w.seen, e);
    StallStep(c.hw, StateOf(c, w.seen), buf, BookOf(c, w.seen));
    var v := Apply(c, w, Stall(buf));
    if BookOf(c, w.seen).files == 0 {
      InStepAfter(c, w, v, |BookOf(c, w.seen).taken|, Added(StateOf(c, w.seen), StateOf(c, v.seen)), false);
    }
  }

  /** What is in the packet buffer when frame `f` was received, whatever its trailer. */
  lemma FrameSeen(c: Setting, e: Event, f: nat, crc: (byte, byte))
    requires Sendable(c) && f < |c.file| && Genuine(e) && Sees(e, FrameOf(c, f, crc))
    ensures e.packet.Data? && e.buf[PACKET_SEQNO_INDEX] == f % 0x100 && Payload(e) == c.file[f]
    ensures f == 0 ==> e.buf[PACKET_HEADER] != 0
  {
    var frame := Encode(FrameOf(c, f, crc));
    assert e.buf[1] == frame[1] && e.buf[3] == frame[3];
    assert e.buf[..|frame|] == frame;
    assert Payload(e) == frame[3..3 + |c.file[f]|] == c.file[f];
  }

  lemma ClosingSeen(c: Setting, e: Event, crc: (byte, byte))
    requires Sendable(c) && Genuine(e) && Sees(e, FrameOf(c, |c.file| + 1, crc))
    ensures e.packet.Data? && e.buf[PACKET_SEQNO_INDEX] == 0 && e.buf[PACKET_HEADER] == 0
  {
    var frame := Encode(FrameOf(c, |c.file| + 1, crc));
    assert e.buf[1] == frame[1] && e.buf[3] == frame[3];
  }

  /** What the receiver makes of frame `f` when it has taken `r` packets: the next packet is taken or
      ends the session, the one taken last is refused, and nothing else can arrive. */
  lemma BlockArrives(c: Setting, s: State, h: History, e: Event, f: nat, crc: (byte, byte), t: State)
    requires Sane(c) && Shaped(s) && s.result.None? && f < |c.file| && Sees(e, FrameOf(c, f, crc)) && Genuine(e)
    requires s.packets == |h.taken| && h.broken == [] && (h.open <==> h.taken != [])
    requires TookPrefix(c, h) && |h.taken| <= f + 1 && f <= |h.taken|
    requires DataEffect(s, e, t)
    ensures var g := Observe(s, e, t, h);
            && g.files == h.files && TookPrefix(c, g)
            && |g.taken| == |h.taken| + Count(ACK, Added(s, t))
            && (|g.taken| == |h.taken| || (|g.taken| == |h.taken| + 1 && f == |h.taken|))
  {
    hide Observe, Count, Sees, FrameOf, Payload;
    FrameSeen(c, e, f, crc);
    ObservedData(s, e, t, h);
    ShortCounts();
    if f == |h.taken| {
      if t.result.None? {
        AddedBy(s, t, if s.packets == 0 then [ACK, CRC16] else [ACK]);
      } else {
        AddedBy(s, t, [CA, CA]);
      }
    } else {
      assert f % 0x100 != s.packets % 0x100;
      AddedBy(s, t, [NAK]);
    }
  }

  /** Before the first EOT, what the receiver counts is what it has taken. */
  lemma Counts(hw: Hardware, s: State, es: seq<Event>)
    requires Fresh(s) && AllGenuine(es) && Log(hw, s, es).files == 0
    ensures var t, h := Exec(hw, s, es), Log(hw, s, es);
            && t.packets == |h.taken| && (h.open <==> h.taken != []) && (t.result.None? ==> h.broken == [])
            && |h.sizes| == if h.taken == [] then 0 else 1
  {
    hide Exec, Log, Balanced, Budgeted, Numbered;
    BooksHold(hw, s, es);
  }

  lemma BlockOutcome(c: Setting, w: World, e: Event, f: nat, crc: (byte, byte))
    requires Sane(c) && AllGenuine(w.seen) && Genuine(e) && StateOf(c, w.seen).result.None?
    requires f < |c.file| && Sees(e, FrameOf(c, f, crc))
    requires var h := BookOf(c, w.seen); h.files == 0 && TookPrefix(c, h) && |h.taken| <= f + 1 && f <= |h.taken|
    ensures AllGenuine(w.seen + [e])
    ensures var h, g := BookOf(c, w.seen), BookOf(c, w.seen + [e]);
            var n := Count(ACK, Added(StateOf(c, w.seen), StateOf(c, w.seen + [e])));
            && g.files == h.files && TookPrefix(c, g) && |g.taken| == |h.taken| + n
            && (n == 0 || (n == 1 && f == |h.taken|))
  {
    hide Exec, Log, Count, Step, Observe, Added, DataEffect, TookPrefix, Sees, FrameOf;
    var s, h := StateOf(c, w.seen), BookOf(c, w.seen);
    Snoc(c, w.seen, e);
    Counts(c.hw, c.start, w.seen);
    FrameSeen(c, e, f, crc);
    DataStep(c.hw, s, e);
    BlockArrives(c, s, h, e, f, crc, StateOf(c, w.seen + [e]));
  }

  lemma BlockKeeps(c: Setting, w: World, e: Event, crc: (byte, byte))
    requires Sane(c) && Coupled(c, w) && Enabled(c, w, Arrive(e, crc)) && w.lane[0] < |c.file|
    ensures Coupled(c, Apply(c, w, Arrive(e, crc)))
  {
    hide Exec, Log, Finished, Count, TookPrefix, Sees, Sane;
    assert Sendable(c) by { SaneIs(c); }
    SeesGenuine(e, FrameOf(c, w.lane[0], crc));
    var v := Apply(c, w, Arrive(e, crc));
    var s, t, h := StateOf(c, w.seen), StateOf(c, v.seen), BookOf(c, w.seen);
    assert InStep(c, w, |h.taken|);
    BlockOutcome(c, w, e, w.lane[0], crc);
    InStepAfter(c, w, v, |h.taken|, Added(s, t), true);
  }

  lemma SaneIs(c: Setting)
    requires Sane(c)
    ensures Sendable(c) && Fresh(c.start)
  {
  }

  lemma EotStep(hw: Hardware, s: State, e: Event, h: History)
    requires Shaped(s) && s.result.None? && Genuine(e) && e.packet == EndOfFile
    ensures var t := Step(hw, s, e);
            var g := Observe(s, e, t, h);
            && t.result.None? && t.packets == 0 && t.dest == s.dest && t.complete == s.complete && t.size == s.size
            && t.flash == s.flash && t.ops == s.ops
            && !g.open && g.taken == h.taken && g.base == h.base && g.sizes == h.sizes && g.broken == h.broken
            && g.files == h.files + 1
  {
    hide AcceptHeader, AcceptData;
  }

  /** An EOT arrives, the first one or a repeated one. */
  lemma EotKeeps(c: Setting, w: World, e: Event, crc: (byte, byte))
    requires Sane(c) && Coupled(c, w) && Enabled(c, w, Arrive(e, crc)) && w.lane[0] == |c.file|
    ensures Coupled(c, Apply(c, w, Arrive(e, crc)))
  {
    hide Exec, Log, Count, Step, Observe, TookPrefix;
    SeesGenuine(e, Ending);
    Snoc(c, w.seen, e);
    EotStep(c.hw, StateOf(c, w.seen), e, BookOf(c, w.seen));
    if BookOf(c, w.seen).files == 0 {
      Counts(c.hw, c.start, w.seen);
      SameTook(c, BookOf(c, w.seen), BookOf(c, w.seen + [e]));
    } else {
      SameTook(c, BookOf(c, w.seen), BookOf(c, w.seen + [e]));
    }
  }

  lemma SameTook(c: Setting, h: History, g: History)
    requires Sane(c) && TookPrefix(c, h) && g.taken == h.taken && g.broken == h.broken
    ensures TookPrefix(c, g)
  {
  }

  /** The empty filename packet, at a receiver between files. */
  lemma ClosingStep(hw: Hardware, s: State, e: Event, h: History)
    requires Shaped(s) && s.result.None? && Genuine(e) && e.packet.Data? && s.packets == 0
    requires e.buf[PACKET_SEQNO_INDEX] == 0 && e.buf[PACKET_HEADER] == 0
    ensures var t := Step(hw, s, e);
            var g := Observe(s, e, t, h);
            && t.result == Some(s.size) && t.size == s.size && t.flash == s.flash && t.dest == s.dest && t.ops == s.ops
            && g.open == h.open && g.taken == h.taken && g.base == h.base && g.sizes == h.sizes && g.broken == h.broken
            && g.files == h.files
  {
    hide AcceptData;
  }

  lemma ClosingKeeps(c: Setting, w: World, e: Event, crc: (byte, byte))
    requires Sane(c) && Coupled(c, w) && Enabled(c, w, Arrive(e, crc)) && w.lane[0] == |c.file| + 1
    ensures Coupled(c, Apply(c, w, Arrive(e, crc)))
  {
    hide Exec, Log, Count, Step, Observe, TookPrefix, Numbered, Balanced, Budgeted, Explained, Sees, FrameOf;
    SeesGenuine(e, FrameOf(c, w.lane[0], crc));
    ClosingSeen(c, e, crc);
    Snoc(c, w.seen, e);
    BooksHold(c.hw, c.start, w.seen);
    ClosingStep(c.hw, StateOf(c, w.seen), e, BookOf(c, w.seen));
    SameTook(c, BookOf(c, w.seen), BookOf(c, w.seen + [e]));
  }

  // ---------------------------------------------------------------------------------------------
  // Safety

  lemma CoupledStep(c: Setting, w: World, m: Move)
    requires Sane(c) && Coupled(c, w) && Enabled(c, w, m)
    ensures Coupled(c, Apply(c, w, m))
  {
    hide Coupled, Apply, Exec, Log, Sees;
    match m
    case Arrive(e, crc) =>
      if w.lane[0] < |c.file| {
        BlockKeeps(c, w, e, crc);
      } else if w.lane[0] == |c.file| {
        EotKeeps(c, w, e, crc);
      } else {
        ClosingKeeps(c, w, e, crc);
      }
    case Stall(buf) => StallKeeps(c, w, buf);
    case _ => CoupledLines(c, w, m);
  }

  lemma {:induction false} CoupledAlways(c: Setting, w: World, ms: seq<Move>, v: World)
    requires Sane(c) && Coupled(c, w) && Leads(c, w, ms, v)
    ensures Coupled(c, v)
    decreases |ms|
  {
    if ms != [] {
      hide Coupled, Enabled, Apply;
      CoupledStep(c, w, ms[0]);
      CoupledAlways(c, Apply(c, w, ms[0]), ms[1..], v);
    }
  }
}
