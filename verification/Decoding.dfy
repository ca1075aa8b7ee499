/** The converse of the framing round trip: which bytes came, for every outcome of `Receive_Packet` on any
    line. */
module Decoding {
  import opened Machine
  import opened Framing

  /** The bytes `bs` come from poll `pos` on, each in time, and the last of them at poll `end - 1`. */
  ghost predicate Comes(line: Line, pos: nat, bs: seq<byte>, end: nat) {
    exists at :: Carries(line, pos, bs, at) && end == Start(pos, at, |at|)
  }

  /** Nothing comes for as long as the receiver waits for a byte. */
  ghost predicate Silent(line: Line, from: nat) {
    forall k :: from <= k < from + NAK_TIMEOUT ==> line(k) == Idle
  }

  /** How many bytes a frame has that starts with `c`. */
  function FrameLength(c: byte): nat {
    if c == SOH then PACKET_SIZE + PACKET_OVERHEAD else if c == STX then PACKET_1K_SIZE + PACKET_OVERHEAD else 1
  }

  /** Bytes after which the receiver still waits: none, the first of two CA, or part of a frame. */
  predicate Unfinished(bs: seq<byte>) {
    bs == [] || bs == [CA] || (bs[0] in {SOH, STX} && |bs| < FrameLength(bs[0]))
  }

  /** Bytes that the receiver gives up: noise, a CA that is followed by something else, or a whole frame whose
      sequence bytes disagree. */
  predicate Spoilt(bs: seq<byte>) {
    || (|bs| == 1 && bs[0] !in {SOH, STX, EOT, CA, ABORT1, ABORT2})
    || (|bs| == 2 && bs[0] == CA && bs[1] != CA)
    || (|bs| > 2 && bs[0] in {SOH, STX} && |bs| == FrameLength(bs[0]) && bs[2] != 0xff - bs[1])
  }

  /** The packet buffer after the bytes `bs`: those of a frame are stored. */
  function Buffered(bs: seq<byte>, buf: seq<byte>): seq<byte>
    requires |bs| <= |buf|
  {
    if bs != [] && bs[0] in {SOH, STX} then bs + buf[|bs|..] else buf
  }

  /** Nothing that is a frame has come: the receiver gave up the bytes `bs`, or waited in vain for what follows
      them. */
  ghost predicate CameBroken(line: Line, pos: nat, bs: seq<byte>, end: nat) {
    || (Spoilt(bs) && Comes(line, pos, bs, end))
    || (Unfinished(bs) && end >= NAK_TIMEOUT && Comes(line, pos, bs, end - NAK_TIMEOUT) && Silent(line, end - NAK_TIMEOUT))
  }

  // ---------------------------------------------------------------------------------------------

  lemma NothingCame(line: Line, pos: nat)
    ensures Comes(line, pos, [], pos)
  {
    assert Carries(line, pos, [], []);
  }

  lemma ByteAnswered(line: Line, pos: nat)
    ensures match NextByte(line, pos, NAK_TIMEOUT)
            case Timeout(p) => p == pos + NAK_TIMEOUT && Silent(line, pos)
            case Got(b, p) => p > 0 && Answered(line, pos, p - 1, b)
  {
  }

  lemma CarriesMore(line: Line, pos: nat, bs: seq<byte>, at: seq<nat>, b: byte, q: nat)
    requires Carries(line, pos, bs, at) && Answered(line, Start(pos, at, |at|), q, b)
    ensures Carries(line, pos, bs + [b], at + [q])
  {
    hide Answered;
    var all, times := bs + [b], at + [q];
    forall i | 0 <= i < |all|
      ensures Answered(line, Start(pos, times, i), times[i], all[i])
    {
      assert Start(pos, times, i) == Start(pos, at, i);
      if i < |bs| {
        assert all[i] == bs[i] && times[i] == at[i];
      }
    }
  }

  /** One more byte. */
  lemma MoreCame(line: Line, pos: nat, bs: seq<byte>, from: nat, b: byte, p: nat)
    requires Comes(line, pos, bs, from) && p > 0 && Answered(line, from, p - 1, b)
    ensures Comes(line, pos, bs + [b], p)
  {
    hide Answered, Carries;
    var at :| Carries(line, pos, bs, at) && from == Start(pos, at, |at|);
    var q: nat := p - 1;
    CarriesMore(line, pos, bs, at, b, q);
    assert Start(pos, at + [q], |at + [q]|) == p;
  }

  /** The fill loop, behind bytes that came and were stored. */
  lemma {:induction false} FillCame(line: Line, pos: nat, start: nat, buf: seq<byte>, i: nat, total: nat) returns (n: nat)
    requires i <= total <= |buf| && Comes(line, start, buf[..i], pos)
    ensures var f := Fill(line, pos, buf, i, total);
            && i <= n <= total && (f.whole <==> n == total) && f.buf[n..] == buf[n..]
            && if f.whole then Comes(line, start, f.buf[..n], f.pos)
               else f.pos >= NAK_TIMEOUT && Comes(line, start, f.buf[..n], f.pos - NAK_TIMEOUT) && Silent(line, f.pos - NAK_TIMEOUT)
    decreases total - i
  {
    hide Await, Comes, Silent, Answered;
    n := i;
    if i < total {
      ByteAnswered(line, pos);
      match NextByte(line, pos, NAK_TIMEOUT)
      case Timeout(_) =>
      case Got(b, p) =>
        MoreCame(line, start, buf[..i], pos, b, p);
        var next := buf[i := b];
        assert next[..i + 1] == buf[..i] + [b];
        n := FillCame(line, p, start, next, i + 1, total);
        assert next[n..] == buf[n..];
    }
  }

  /** What an outcome says of the line: a frame came, whole, and is what the outcome and the buffer say; or none
      came. */
  ghost predicate Explains(line: Line, pos: nat, buf: seq<byte>, r: Reception)
    requires |buf| == PACKET_BUFFER
  {
    if r.packet == Failed then
      exists bs :: |bs| <= PACKET_BUFFER && r.buf == Buffered(bs, buf) && CameBroken(line, pos, bs, r.pos)
    else
      exists f :: WellFormed(f) && r.packet == Meaning(f) && r.buf == Overlay(f, buf) && Comes(line, pos, Encode(f), r.pos)
  }

  lemma FrameExplains(line: Line, pos: nat, buf: seq<byte>, r: Reception, f: Frame)
    requires |buf| == PACKET_BUFFER && WellFormed(f) && r.packet == Meaning(f) && r.buf == Overlay(f, buf)
    requires Comes(line, pos, Encode(f), r.pos)
    ensures Explains(line, pos, buf, r)
  {
  }

  lemma FailureExplains(line: Line, pos: nat, buf: seq<byte>, r: Reception, bs: seq<byte>)
    requires |buf| == PACKET_BUFFER && |bs| <= PACKET_BUFFER && r == Reception(Failed, Buffered(bs, buf), r.pos)
    requires CameBroken(line, pos, bs, r.pos)
    ensures Explains(line, pos, buf, r)
  {
  }

  /** A reception that starts with a frame's start byte. */
  lemma BodyExplains(line: Line, pos: nat, p: nat, buf: seq<byte>, c: byte, size: nat)
    requires |buf| == PACKET_BUFFER && (c == SOH || c == STX) && size == (if c == SOH then PACKET_SIZE else PACKET_1K_SIZE)
    requires Comes(line, pos, [c], p)
    ensures Explains(line, pos, buf, Body(line, p, buf, c, size))
  {
    hide Fill, Comes, Silent, Explains, Encode, Overlay;
    var total, with := size + PACKET_OVERHEAD, buf[0 := c];
    assert with[..1] == [c];
    var n := FillCame(line, p, pos, with, 1, total);
    var f := Fill(line, p, with, 1, total);
    var r, bs := Body(line, p, buf, c, size), f.buf[..n];
    assert f.buf[..1] == with[..1] && bs[0] == f.buf[..1][0] == c;
    assert f.buf == bs + buf[n..] by { assert with[n..] == buf[n..]; }
    if r.packet == Failed {
      FailureExplains(line, pos, buf, r, bs);
    } else {
      var frame := Block(bs[1], bs[3..size + 3], (bs[size + 3], bs[size + 4]));
      BlockIs(bs, c, size);
      OverlayIs(frame, buf);
      FrameExplains(line, pos, buf, r, frame);
    }
  }

  lemma BlockIs(bs: seq<byte>, c: byte, size: nat)
    requires (c == SOH || c == STX) && size == (if c == SOH then PACKET_SIZE else PACKET_1K_SIZE)
    requires |bs| == size + PACKET_OVERHEAD && bs[0] == c && bs[2] == 0xff - bs[1]
    ensures Encode(Block(bs[1], bs[3..size + 3], (bs[size + 3], bs[size + 4]))) == bs
  {
  }

  lemma OverlayIs(f: Frame, buf: seq<byte>)
    requires WellFormed(f) && |buf| == PACKET_BUFFER
    ensures Overlay(f, buf) == if f.Block? then Encode(f) + buf[|Encode(f)|..] else buf
  {
  }

  /** Every outcome of `Receive_Packet`, on any line, with any bytes in the packet buffer. */
  lemma ReceiveExplains(line: Line, pos: nat, buf: seq<byte>)
    requires |buf| == PACKET_BUFFER
    ensures Explains(line, pos, buf, Receive(line, pos, buf))
  {
    hide Await, Body, Comes, Silent, Answered, Explains;
    var r := Receive(line, pos, buf);
    NothingCame(line, pos);
    ByteAnswered(line, pos);
    match NextByte(line, pos, NAK_TIMEOUT)
    case Timeout(p) => FailureExplains(line, pos, buf, r, []);
    case Got(c, p) =>
      MoreCame(line, pos, [], pos, c, p);
      assert [] + [c] == [c];
      if c == SOH || c == STX {
        BodyExplains(line, pos, p, buf, c, if c == SOH then PACKET_SIZE else PACKET_1K_SIZE);
      } else if c == EOT {
        FrameExplains(line, pos, buf, r, Ending);
      } else if c == CA {
        ByteAnswered(line, p);
        match NextByte(line, p, NAK_TIMEOUT)
        case Timeout(_) => FailureExplains(line, pos, buf, r, [CA]);
        case Got(d, q) =>
          MoreCame(line, pos, [c], p, d, q);
          assert [c] + [d] == [c, d];
          if d == CA {
            FrameExplains(line, pos, buf, r, Cancel);
          } else {
            FailureExplains(line, pos, buf, r, [c, d]);
          }
      } else if c == ABORT1 || c == ABORT2 {
        FrameExplains(line, pos, buf, r, Key(c));
      } else {
        FailureExplains(line, pos, buf, r, [c]);
      }
  }

  /** A reception fails exactly when no frame comes. */
  lemma FailsIffNoFrame(line: Line, pos: nat, buf: seq<byte>)
    requires |buf| == PACKET_BUFFER
    ensures Receive(line, pos, buf).packet == Failed
            <==> !exists f, end :: WellFormed(f) && Comes(line, pos, Encode(f), end)
  {
    hide Receive, Comes, Encode;
    ReceiveExplains(line, pos, buf);
    forall f, end | WellFormed(f) && Comes(line, pos, Encode(f), end)
      ensures Receive(line, pos, buf).packet == Meaning(f)
    {
      FrameReceived(line, pos, buf, f, end);
    }
  }

  lemma FrameReceived(line: Line, pos: nat, buf: seq<byte>, f: Frame, end: nat)
    requires |buf| == PACKET_BUFFER && WellFormed(f) && Comes(line, pos, Encode(f), end)
    ensures Receive(line, pos, buf) == Reception(Meaning(f), Overlay(f, buf), end)
  {
    hide Receive, Encode, Carries;
    var at :| Carries(line, pos, Encode(f), at) && end == Start(pos, at, |at|);
    CarriedIsRead(line, pos, Encode(f), at, end);
    ReadsFrame(line, pos, f, end, buf);
  }
}
