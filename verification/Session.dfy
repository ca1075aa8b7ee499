/** One session of `Ymodem_Receive` as a function: what each packet that `Receive_Packet` reports
    does to the receiver's variables, to the flash and to the replies. */
module Session {
  import opened Machine
  import opened Framing
  import opened Header
  import opened Flash

  /** The variables of `Ymodem_Receive`, the globals it changes and what it has done so far.
      `result` is its return value once it has one. */
  datatype State = State(
    packets: nat,              // packets_received
    errors: nat,
    begun: bool,               // session_begin
    size: int,
    dest: word,                // FlashDestination
    complete: bool,            // FLASHStatus == FLASH_COMPLETE
    flash: Words,
    ops: seq<FlashOp>,         // flash operations of the session
    replies: seq<byte>,        // bytes sent in the session
    name: seq<byte>,           // file_name and the byte behind it
    field: seq<byte>,          // file_size and the byte behind it
    ram: seq<byte>,            // tab_1024
    result: Option<int>)

  predicate Shaped(s: State) {
    |s.name| == FILE_NAME_LENGTH + 1 && |s.field| == FILE_SIZE_LENGTH + 1 && |s.ram| == PACKET_1K_SIZE
  }

  function Reply(s: State, bs: seq<byte>): State {
    s.(replies := s.replies + bs)
  }

  /** Two CA bytes and a return. */
  function Abort(s: State, code: int): State {
    Reply(s, [CA, CA]).(result := Some(code))
  }

  // ---------------------------------------------------------------------------------------------
  // The filename packet

  /** The erase loop from `EraseCounter == i` on. */
  function Erased(hw: Hardware, s: State, i: nat, n: nat): (r: State)
    ensures r == s.(complete := r.complete, flash := r.flash, ops := r.ops)
    ensures r.flash.Keys == s.flash.Keys
    decreases n - i
  {
    if i < n && s.complete then
      var page := ToU32(s.dest + PAGE_SIZE * i);
      var done := hw.completes(|s.ops|, page);
      Erased(hw, s.(complete := done,
                    flash := AfterErase(hw, s.flash, |s.ops|, page),
                    ops := s.ops + [Erase(page, done)]), i + 1, n)
    else s
  }

  /** The state once name and size are copied out of the packet. */
  function Headed(s: State, buf: seq<byte>): (r: State)
    requires Shaped(s) && |buf| == PACKET_BUFFER
    ensures Shaped(r)
  {
    var field := Stored(s.field, FieldText(buf));
    s.(name := Stored(s.name, NameText(buf)), field := field, size := Converted(field, s.size))
  }

  function AcceptHeader(hw: Hardware, s: State, buf: seq<byte>): (r: State)
    requires Shaped(s) && |buf| == PACKET_BUFFER
    ensures Shaped(r)
  {
    if buf[PACKET_HEADER] == 0 then Reply(s, [ACK]).(result := Some(s.size))
    else
      var h := Headed(s, buf);
      if h.size > FLASH_SIZE - 1 then Abort(h, -1)
      else Reply(Erased(hw, h, 0, Pages(h.size)), [ACK, CRC16]).(packets := s.packets + 1, begun := true)
  }

  // ---------------------------------------------------------------------------------------------
  // A data packet

  /** `ApplicationAddress + size`, as the comparison with the unsigned FlashDestination sees it. */
  function Limit(size: int): word { ToU32(APPLICATION_ADDRESS + size) }

  /** One word programmed and read back. */
  function ProgramOne(hw: Hardware, s: State, data: word): (r: State)
    ensures r.flash.Keys == s.flash.Keys
    ensures r == s.(dest := r.dest, flash := r.flash, ops := r.ops, replies := r.replies, result := r.result)
  {
    var k := |s.ops|;
    var flash := AfterProgram(hw, s.flash, k, s.dest);
    var p := s.(flash := flash, ops := s.ops + [Program(s.dest, data)]);
    if ReadWord(hw, flash, k, s.dest) != data then Abort(p, -2)
    else p.(dest := ToU32(s.dest + 4))
  }

  /** The programming loop from byte `j` of a packet of `n` bytes on. */
  function Programmed(hw: Hardware, s: State, j: nat, n: nat): (r: State)
    requires |s.ram| == PACKET_1K_SIZE && n <= PACKET_1K_SIZE && j % 4 == n % 4 == 0
    ensures r.flash.Keys == s.flash.Keys
    ensures r == s.(dest := r.dest, flash := r.flash, ops := r.ops, replies := r.replies, result := r.result)
    ensures s.result.None? && r.result.None? ==> r.replies == s.replies
    ensures s.result.None? && r.result.Some? ==> r.replies == s.replies + [CA, CA] && r.result == Some(-2)
    decreases |s.ram| - j
  {
    if j < n && s.dest < Limit(s.size) && s.result.None? then
      Programmed(hw, ProgramOne(hw, s, WordAt(s.ram, j)), j + 4, n)
    else s
  }

  function AcceptData(hw: Hardware, s: State, buf: seq<byte>, n: nat): (r: State)
    requires Shaped(s) && |buf| == PACKET_BUFFER && (n == PACKET_SIZE || n == PACKET_1K_SIZE)
    ensures Shaped(r)
  {
    var copied := s.(ram := buf[PACKET_HEADER..PACKET_HEADER + n] + s.ram[n..]);
    var p := Programmed(hw, copied, 0, n);
    if p.result.Some? then p
    else Reply(p, [ACK]).(packets := s.packets + 1, begun := true)
  }

  // ---------------------------------------------------------------------------------------------
  // Packets

  function Fault(s: State): State {
    var e := if s.begun then s.errors + 1 else s.errors;
    var t := s.(errors := e);
    if e > MAX_ERRORS then Abort(t, 0) else Reply(t, [CRC16])
  }

  /** The effect of one packet on a running session. */
  function Step(hw: Hardware, s: State, e: Event): (r: State)
    requires Shaped(s) && Genuine(e)
    ensures Shaped(r)
  {
    var t := s.(errors := 0);
    match e.packet
    case Failed => Fault(s)
    case UserAbort => Abort(s, -3)
    case SenderAbort => Reply(t, [ACK]).(result := Some(0))
    case EndOfFile => Reply(t, [ACK]).(packets := 0)
    case Data(n) =>
      if e.buf[PACKET_SEQNO_INDEX] != s.packets % 0x100 then Reply(t, [NAK])
      else if s.packets == 0 then AcceptHeader(hw, t, e.buf)
      else AcceptData(hw, t, e.buf, n)
  }

  ghost predicate AllGenuine(es: seq<Event>) {
    forall e :: e in es ==> Genuine(e)
  }

  /** A session that has returned does nothing more. */
  function Next(hw: Hardware, s: State, e: Event): (r: State)
    requires Shaped(s) && Genuine(e)
    ensures Shaped(r)
  {
    if s.result.Some? then s else Step(hw, s, e)
  }

  /** The effect of a sequence of packets, the last of them last. */
  ghost function Exec(hw: Hardware, s: State, es: seq<Event>): (r: State)
    requires Shaped(s) && AllGenuine(es)
    ensures Shaped(r)
    decreases |es|
  {
    if es == [] then s
    else Next(hw, Exec(hw, s, es[..|es| - 1]), es[|es| - 1])
  }

  // ---------------------------------------------------------------------------------------------
  // The receiver on a line

  /** The session together with the packet buffer and the position on the line. */
  datatype Position = Position(s: State, buf: seq<byte>, pos: nat)

  predicate Ready(p: Position) { Shaped(p.s) && |p.buf| == PACKET_BUFFER }

  /** One pass of the inner loop: a call of `Receive_Packet` and the switch on its outcome. */
  function Round(hw: Hardware, line: Line, p: Position): (q: Position)
    requires Ready(p)
    ensures Ready(q)
  {
    var r := Receive(line, p.pos, p.buf);
    Position(Step(hw, p.s, Event(r.packet, r.buf)), r.buf, r.pos)
  }

  /** At most `n` passes, fewer when the session returns. */
  function Run(hw: Hardware, line: Line, p: Position, n: nat): (q: Position)
    requires Ready(p)
    ensures Ready(q)
    decreases n
  {
    if n == 0 || p.s.result.Some? then p else Run(hw, line, Round(hw, line, p), n - 1)
  }

  lemma {:induction false} ExecFirst(hw: Hardware, s: State, e: Event, es: seq<Event>)
    requires Shaped(s) && AllGenuine([e] + es)
    ensures Exec(hw, s, [e] + es) == Exec(hw, Next(hw, s, e), es)
    decreases |es|
  {
    var all := [e] + es;
    assert Genuine(all[0]);
    if es == [] {
      assert all[..0] == [] && all[|all| - 1] == e;
      assert Exec(hw, s, all[..0]) == s;
    } else {
      var front := es[..|es| - 1];
      assert all[..|all| - 1] == [e] + front && all[|all| - 1] == es[|es| - 1];
      ExecFirst(hw, s, e, front);
    }
  }

  lemma {:induction false} ExecStops(hw: Hardware, s: State, es: seq<Event>)
    requires Shaped(s) && AllGenuine(es) && s.result.Some?
    ensures Exec(hw, s, es) == s
    decreases |es|
  {
    if es != [] {
      ExecStops(hw, s, es[..|es| - 1]);
    }
  }

  /** What the receiver does on a line is what it does on the packets received from that line. */
  lemma {:induction false} RunIsExec(hw: Hardware, line: Line, p: Position, n: nat)
    requires Ready(p)
    ensures Run(hw, line, p, n).s == Exec(hw, p.s, Events(line, p.pos, p.buf, n))
    decreases n
  {
    if n > 0 {
      var r := Receive(line, p.pos, p.buf);
      var e := Event(r.packet, r.buf);
      var rest := Events(line, r.pos, r.buf, n - 1);
      assert Events(line, p.pos, p.buf, n) == [e] + rest;
      if p.s.result.Some? {
        ExecStops(hw, p.s, [e] + rest);
      } else {
        ExecFirst(hw, p.s, e, rest);
        RunIsExec(hw, line, Round(hw, line, p), n - 1);
      }
    }
  }

  lemma FirstRound(hw: Hardware, line: Line, p: Position, n: nat)
    requires Ready(p) && p.s.result.None?
    ensures var q := Round(hw, line, p);
            && Exec(hw, p.s, Events(line, p.pos, p.buf, n + 1)) == Exec(hw, q.s, Events(line, q.pos, q.buf, n))
            && Advance(line, p.pos, p.buf, n + 1) == Advance(line, q.pos, q.buf, n)
            && Run(hw, line, p, n + 1) == Run(hw, line, q, n)
  {
    hide Receive, Step;
    var r := Receive(line, p.pos, p.buf);
    var rest := Events(line, r.pos, r.buf, n);
    assert Events(line, p.pos, p.buf, n + 1) == [Event(r.packet, r.buf)] + rest;
    ExecFirst(hw, p.s, Event(r.packet, r.buf), rest);
  }

  lemma NoRound(hw: Hardware, line: Line, p: Position, n: nat)
    requires Ready(p) && (n == 0 || p.s.result.Some?)
    ensures Run(hw, line, p, n) == p && Exec(hw, p.s, Events(line, p.pos, p.buf, 0)) == p.s
    ensures Advance(line, p.pos, p.buf, 0) == (p.buf, p.pos)
  {
  }

  /** A run makes one reception after the other, each from where the one before left the line, and stops behind
      the one that ends the session, or after `n`. */
  lemma {:induction false} RunStops(hw: Hardware, line: Line, p: Position, n: nat) returns (k: nat)
    requires Ready(p)
    ensures k <= n && (k == n || Exec(hw, p.s, Events(line, p.pos, p.buf, k)).result.Some?)
    ensures forall j :: 0 <= j < k ==> Exec(hw, p.s, Events(line, p.pos, p.buf, j)).result.None?
    ensures var end := Advance(line, p.pos, p.buf, k);
            Run(hw, line, p, n) == Position(Exec(hw, p.s, Events(line, p.pos, p.buf, k)), end.0, end.1)
    decreases n
  {
    hide Exec, Run, Round, Events, Advance;
    NoRound(hw, line, p, 0);
    if n == 0 || p.s.result.Some? {
      k := 0;
      NoRound(hw, line, p, n);
    } else {
      var q := Round(hw, line, p);
      var i := RunStops(hw, line, q, n - 1);
      k := i + 1;
      FirstRound(hw, line, p, i);
      FirstRound(hw, line, p, n - 1);
      forall j | 0 <= j < k
        ensures Exec(hw, p.s, Events(line, p.pos, p.buf, j)).result.None?
      {
        if j > 0 {
          FirstRound(hw, line, p, j - 1);
        }
      }
    }
  }
}
