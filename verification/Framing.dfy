/** The byte-level framer: `Receive_Byte` and `Receive_Packet` as functions of the line, and the
    frames a sender puts on it. */
module Framing {
  import opened Machine

  /** One call of `SerialKeyPressed`: nothing waiting, or a byte taken from the UART. */
  datatype Poll = Idle | Arrived(b: byte)

  /** The outcome of every poll, in the order in which the receiver makes them. */
  type Line = nat -> Poll

  datatype ByteResult = Timeout(pos: nat) | Got(b: byte, pos: nat)

  /** The first byte that a poll before `deadline` delivers. */
  function Await(line: Line, pos: nat, deadline: nat): (r: ByteResult)
    requires pos <= deadline
    ensures pos <= r.pos <= deadline
    ensures r.Timeout? <==> forall k :: pos <= k < deadline ==> line(k) == Idle
    ensures r.Timeout? ==> r.pos == deadline
    ensures r.Got? ==> pos < r.pos && line(r.pos - 1) == Arrived(r.b)
    ensures r.Got? ==> forall k :: pos <= k < r.pos - 1 ==> line(k) == Idle
    decreases deadline - pos
  {
    if pos == deadline then Timeout(pos)
    else match line(pos)
      case Arrived(b) => Got(b, pos + 1)
      case Idle => Await(line, pos + 1, deadline)
  }

  /** `Receive_Byte`. */
  function NextByte(line: Line, pos: nat, timeout: nat): ByteResult {
    Await(line, pos, pos + timeout)
  }

  /** What `Receive_Packet` reports through its return value and `*length`. */
  datatype Packet = Failed | UserAbort | SenderAbort | EndOfFile | Data(length: nat)

  function Status(p: Packet): int {
    match p
    case Failed => -1
    case UserAbort => 1
    case _ => 0
  }

  function Length(p: Packet): int {
    match p
    case SenderAbort => -1
    case Data(n) => n
    case _ => 0
  }

  datatype Reception = Reception(packet: Packet, buf: seq<byte>, pos: nat)

  datatype Filling = Filling(whole: bool, buf: seq<byte>, pos: nat)

  /** Bytes `i` to `total - 1` of a frame, each awaited for NAK_TIMEOUT polls. */
  function Fill(line: Line, pos: nat, buf: seq<byte>, i: nat, total: nat): (r: Filling)
    requires total <= |buf|
    ensures |r.buf| == |buf| && pos <= r.pos
    ensures i <= |buf| ==> r.buf[..i] == buf[..i]
    decreases |buf| - i
  {
    if i >= total then Filling(true, buf, pos)
    else match NextByte(line, pos, NAK_TIMEOUT)
      case Timeout(p) => Filling(false, buf, p)
      case Got(b, p) => Fill(line, p, buf[i := b], i + 1, total)
  }

  function Body(line: Line, pos: nat, buf: seq<byte>, first: byte, size: nat): (r: Reception)
    requires |buf| == PACKET_BUFFER && (size == PACKET_SIZE || size == PACKET_1K_SIZE)
    ensures |r.buf| == |buf| && pos <= r.pos
    ensures r.packet == Failed || r.packet == Data(size)
    ensures r.packet.Data? ==> r.buf[0] == first && r.buf[2] == 0xff - r.buf[1]
  {
    var f := Fill(line, pos, buf[0 := first], 1, size + PACKET_OVERHEAD);
    assert f.buf[..1] == buf[0 := first][..1] == [first];
    assert f.buf[0] == f.buf[..1][0];
    // The complement test of the frame: x ^ 0xff is 0xff - x for a byte x.
    if f.whole && f.buf[PACKET_SEQNO_INDEX] == 0xff - f.buf[PACKET_SEQNO_COMP_INDEX]
    then Reception(Data(size), f.buf, f.pos)
    else Reception(Failed, f.buf, f.pos)
  }

  /** `Receive_Packet`: `buf` is the caller's packet buffer, whose old bytes survive where no byte
      was stored. A packet that is accepted has a length that fits its start byte and a sequence
      byte that agrees with its complement. */
  function Receive(line: Line, pos: nat, buf: seq<byte>): (r: Reception)
    requires |buf| == PACKET_BUFFER
    ensures |r.buf| == |buf| && pos < r.pos
    ensures r.packet.Data? ==>
              && r.packet.length == (if r.buf[0] == SOH then PACKET_SIZE else PACKET_1K_SIZE)
              && r.buf[0] in {SOH, STX} && r.buf[2] == 0xff - r.buf[1]
  {
    match NextByte(line, pos, NAK_TIMEOUT)
    case Timeout(p) => Reception(Failed, buf, p)
    case Got(c, p) =>
      if c == SOH then Body(line, p, buf, c, PACKET_SIZE)
      else if c == STX then Body(line, p, buf, c, PACKET_1K_SIZE)
      else if c == EOT then Reception(EndOfFile, buf, p)
      else if c == CA then
        (match NextByte(line, p, NAK_TIMEOUT)
         case Timeout(q) => Reception(Failed, buf, q)
         case Got(d, q) => Reception(if d == CA then SenderAbort else Failed, buf, q))
      else if c == ABORT1 || c == ABORT2 then Reception(UserAbort, buf, p)
      else Reception(Failed, buf, p)
  }

  // ---------------------------------------------------------------------------------------------
  // The sender's side of the wire

  datatype Frame =
    | Block(seqno: byte, payload: seq<byte>, crc: (byte, byte))
    | Ending
    | Cancel
    | Key(key: byte)

  predicate WellFormed(f: Frame) {
    match f
    case Block(_, payload, _) => |payload| == PACKET_SIZE || |payload| == PACKET_1K_SIZE
    case Key(key) => key == ABORT1 || key == ABORT2
    case _ => true
  }

  function Encode(f: Frame): (bs: seq<byte>)
    requires WellFormed(f)
    ensures |bs| == match f
                    case Block(_, payload, _) => if |payload| == PACKET_SIZE then 133 else 1029
                    case Cancel => 2
                    case _ => 1
  {
    match f
    case Block(n, payload, crc) =>
      [if |payload| == PACKET_SIZE then SOH else STX, n, 0xff - n] + payload + [crc.0, crc.1]
    case Ending => [EOT]
    case Cancel => [CA, CA]
    case Key(key) => [key]
  }

  /** The packet that a frame announces. */
  function Meaning(f: Frame): Packet {
    match f
    case Block(_, payload, _) => Data(|payload|)
    case Ending => EndOfFile
    case Cancel => SenderAbort
    case Key(_) => UserAbort
  }

  function Stream(fs: seq<Frame>): (bs: seq<byte>)
    requires forall f :: f in fs ==> WellFormed(f)
  {
    if fs == [] then [] else Encode(fs[0]) + Stream(fs[1..])
  }

  /** Poll at which the wait for byte `i` starts when byte `k` arrives at poll `at[k]`. */
  function Start(pos: nat, at: seq<nat>, i: nat): nat
    requires i <= |at|
  {
    if i == 0 then pos else at[i - 1] + 1
  }

  /** The wait that starts at poll `from` is answered by byte `b` at poll `q`, in time. */
  ghost predicate Answered(line: Line, from: nat, q: nat, b: byte) {
    && from <= q < from + NAK_TIMEOUT && line(q) == Arrived(b)
    && forall k :: from <= k < q ==> line(k) == Idle
  }

  /** The line carries `bs` from poll `pos` on: byte `i` arrives at poll `at[i]`, fewer than
      NAK_TIMEOUT polls after its predecessor, with only idle polls between. */
  ghost predicate Carries(line: Line, pos: nat, bs: seq<byte>, at: seq<nat>) {
    |at| == |bs| && forall i {:trigger bs[i]} :: 0 <= i < |bs| ==> Answered(line, Start(pos, at, i), at[i], bs[i])
  }

  lemma {:induction false} AwaitAnswered(line: Line, pos: nat, deadline: nat, q: nat, b: byte)
    requires pos <= q < deadline && line(q) == Arrived(b)
    requires forall k :: pos <= k < q ==> line(k) == Idle
    ensures Await(line, pos, deadline) == Got(b, q + 1)
    decreases deadline - pos
  {
    if pos < q {
      assert line(pos) == Idle;
      AwaitAnswered(line, pos + 1, deadline, q, b);
    }
  }

  /** Reading byte after byte from poll `pos` yields `bs` and leaves the line at poll `end`. */
  ghost predicate Reads(line: Line, pos: nat, bs: seq<byte>, end: nat)
    decreases |bs|
  {
    if bs == [] then end == pos
    else
      var r := NextByte(line, pos, NAK_TIMEOUT);
      r.Got? && r.b == bs[0] && Reads(line, r.pos, bs[1..], end)
  }

  lemma CarriesHead(line: Line, pos: nat, bs: seq<byte>, at: seq<nat>)
    requires Carries(line, pos, bs, at) && bs != []
    ensures NextByte(line, pos, NAK_TIMEOUT) == Got(bs[0], at[0] + 1)
  {
    assert Answered(line, Start(pos, at, 0), at[0], bs[0]);
    AwaitAnswered(line, pos, pos + NAK_TIMEOUT, at[0], bs[0]);
  }

  lemma CarriesTail(line: Line, pos: nat, bs: seq<byte>, at: seq<nat>)
    requires Carries(line, pos, bs, at) && bs != []
    ensures Carries(line, at[0] + 1, bs[1..], at[1..])
    ensures Start(at[0] + 1, at[1..], |at| - 1) == Start(pos, at, |at|)
  {
    var bs', at' := bs[1..], at[1..];
    forall i | 0 <= i < |bs'|
      ensures Answered(line, Start(at[0] + 1, at', i), at'[i], bs'[i])
    {
      assert Answered(line, Start(pos, at, i + 1), at[i + 1], bs[i + 1]);
      assert Start(at[0] + 1, at', i) == Start(pos, at, i + 1);
    }
  }

  lemma {:induction false} CarriedIsRead(line: Line, pos: nat, bs: seq<byte>, at: seq<nat>, end: nat)
    requires Carries(line, pos, bs, at) && end == Start(pos, at, |at|)
    ensures Reads(line, pos, bs, end)
    decreases |bs|
  {
    if bs != [] {
      CarriesHead(line, pos, bs, at);
      CarriesTail(line, pos, bs, at);
      CarriedIsRead(line, at[0] + 1, bs[1..], at[1..], end);
    }
  }

  lemma {:induction false} ReadsSplit(line: Line, pos: nat, a: seq<byte>, b: seq<byte>, end: nat) returns (mid: nat)
    requires Reads(line, pos, a + b, end)
    ensures Reads(line, pos, a, mid) && Reads(line, mid, b, end)
    decreases |a|
  {
    if a == [] {
      assert a + b == b;
      mid := pos;
    } else {
      assert (a + b)[1..] == a[1..] + b;
      mid := ReadsSplit(line, NextByte(line, pos, NAK_TIMEOUT).pos, a[1..], b, end);
    }
  }

  lemma {:induction false} ReadsFill(line: Line, pos: nat, bs: seq<byte>, end: nat, buf: seq<byte>, i: nat, total: nat)
    requires Reads(line, pos, bs, end)
    requires i <= total <= |buf| && |bs| == total - i
    ensures Fill(line, pos, buf, i, total) == Filling(true, buf[..i] + bs + buf[total..], end)
    decreases total - i
  {
    hide Await;
    if i == total {
      assert buf[..i] + bs + buf[i..] == buf;
    } else {
      var buf' := buf[i := bs[0]];
      ReadsFill(line, NextByte(line, pos, NAK_TIMEOUT).pos, bs[1..], end, buf', i + 1, total);
      assert buf'[..i + 1] + bs[1..] + buf'[total..] == buf[..i] + bs + buf[total..];
    }
  }

  /** The packet buffer after a frame: its bytes, followed by what the buffer held before. */
  function Overlay(f: Frame, buf: seq<byte>): (r: seq<byte>)
    requires WellFormed(f) && |buf| == PACKET_BUFFER
    ensures |r| == |buf|
  {
    if f.Block? then Encode(f) + buf[|Encode(f)|..] else buf
  }

  lemma ReadsFrame(line: Line, pos: nat, f: Frame, end: nat, buf: seq<byte>)
    requires WellFormed(f) && |buf| == PACKET_BUFFER && Reads(line, pos, Encode(f), end)
    ensures Receive(line, pos, buf) == Reception(Meaning(f), Overlay(f, buf), end)
  {
    var e := Encode(f);
    var p := NextByte(line, pos, NAK_TIMEOUT).pos;
    assert Reads(line, p, e[1..], end);
    match f
    case Block(seqno, payload, _) =>
      var b0 := buf[0 := e[0]];
      ReadsFill(line, p, e[1..], end, b0, 1, |e|);
      assert b0[..1] + e[1..] + b0[|e|..] == e + buf[|e|..];
    case Cancel =>
      var q := NextByte(line, p, NAK_TIMEOUT).pos;
      assert e[1..][0] == CA && Reads(line, q, e[1..][1..], end);
    case Ending =>
      assert e[1..] == [];
    case Key(_) =>
      assert e[1..] == [];
  }

  // ---------------------------------------------------------------------------------------------
  // Repeated receptions

  datatype Event = Event(packet: Packet, buf: seq<byte>)

  /** The packet buffer and the line position after `n` receptions. */
  function Advance(line: Line, pos: nat, buf: seq<byte>, n: nat): (r: (seq<byte>, nat))
    requires |buf| == PACKET_BUFFER
    ensures |r.0| == PACKET_BUFFER
    decreases n
  {
    if n == 0 then (buf, pos)
    else var r := Receive(line, pos, buf); Advance(line, r.pos, r.buf, n - 1)
  }

  /** What `n` successive calls of `Receive_Packet` report. */
  function Events(line: Line, pos: nat, buf: seq<byte>, n: nat): (es: seq<Event>)
    requires |buf| == PACKET_BUFFER
    ensures |es| == n && forall e :: e in es ==> Genuine(e)
    decreases n
  {
    if n == 0 then []
    else var r := Receive(line, pos, buf); [Event(r.packet, r.buf)] + Events(line, r.pos, r.buf, n - 1)
  }

  /** What holds of everything `Receive_Packet` reports, whatever the line does. */
  predicate Genuine(e: Event) {
    && |e.buf| == PACKET_BUFFER
    && (e.packet.Data? ==> e.packet.length == PACKET_SIZE || e.packet.length == PACKET_1K_SIZE)
  }

  /** `e` is what the receiver sees of frame `f`. */
  ghost predicate Sees(e: Event, f: Frame)
    requires WellFormed(f)
  {
    && e.packet == Meaning(f) && |e.buf| == PACKET_BUFFER
    && (f.Block? ==> Encode(f) <= e.buf)
  }

  ghost predicate SeesAll(es: seq<Event>, fs: seq<Frame>)
    requires forall f :: f in fs ==> WellFormed(f)
  {
    |es| == |fs| && forall i :: 0 <= i < |fs| ==> Sees(es[i], fs[i])
  }

  lemma {:induction false} ReadsStream(line: Line, pos: nat, fs: seq<Frame>, end: nat, buf: seq<byte>)
    requires forall f :: f in fs ==> WellFormed(f)
    requires |buf| == PACKET_BUFFER && Reads(line, pos, Stream(fs), end)
    ensures Advance(line, pos, buf, |fs|).1 == end
    ensures SeesAll(Events(line, pos, buf, |fs|), fs)
    decreases |fs|
  {
    if fs != [] {
      var mid := ReadsSplit(line, pos, Encode(fs[0]), Stream(fs[1..]), end);
      ReadsFrame(line, pos, fs[0], mid, buf);
      ReadsStream(line, mid, fs[1..], end, Overlay(fs[0], buf));
    }
  }

  /** Framing round trip: when a line carries the encoding of any sequence of well-formed frames,
      with any pauses shorter than the timeout, the receptions yield those frames one by one and
      stop behind the last byte, whatever the packet buffer held. */
  lemma FramingRoundTrip(line: Line, pos: nat, at: seq<nat>, fs: seq<Frame>, buf: seq<byte>)
    requires forall f :: f in fs ==> WellFormed(f)
    requires |buf| == PACKET_BUFFER && Carries(line, pos, Stream(fs), at)
    ensures Advance(line, pos, buf, |fs|).1 == Start(pos, at, |at|)
    ensures SeesAll(Events(line, pos, buf, |fs|), fs)
  {
    CarriedIsRead(line, pos, Stream(fs), at, Start(pos, at, |at|));
    ReadsStream(line, pos, fs, Start(pos, at, |at|), buf);
  }
}
