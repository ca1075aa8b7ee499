/** `Receive_Byte`, `Receive_Packet` and `Ymodem_Receive` in their own form, proved to do what the
    functions of `Framing` and `Session` say. */
module Receiver {
  import opened Machine
  import opened Framing
  import opened Header
  import opened Flash
  import opened Session
  import L = Ledger
  import F = FirstFile
  import J = Journal
  import C = Calls

  /** The globals of `ymodem.c`, the line, the flash, and the locals of `Ymodem_Receive`, which are
      fields so that the blocks of that function can be methods. */
  class Ymodem {
    const hw: Hardware
    const line: Line
    var pos: nat                        // polls made so far
    var sent: seq<byte>                 // bytes sent in this session
    var flash: Words
    var ops: seq<FlashOp>               // flash operations of this session

    const fileName: array<byte>
    const tab1024: array<byte>
    var flashDestination: word
    var nbrOfPage: nat
    var eraseCounter: nat
    var flashComplete: bool

    const packetData: array<byte>
    const fileSize: array<byte>
    var packetsReceived: nat
    var errors: nat
    var sessionBegin: bool
    var size: int

    ghost predicate Valid() {
      && fileName.Length == FILE_NAME_LENGTH + 1 && fileSize.Length == FILE_SIZE_LENGTH + 1
      && tab1024.Length == PACKET_1K_SIZE && packetData.Length == PACKET_BUFFER
      && fileName != fileSize && fileName != tab1024 && fileName != packetData
      && fileSize != tab1024 && fileSize != packetData && tab1024 != packetData
    }

    /** The variables as a state of `Session`, with the return value when there is one. */
    ghost function View(result: Option<int>): (s: State)
      reads this, fileName, fileSize, tab1024
      requires Valid()
      ensures Shaped(s)
    {
      State(packetsReceived, errors, sessionBegin, size, flashDestination, flashComplete, flash, ops, sent,
            fileName[..], fileSize[..], tab1024[..], result)
    }

    constructor (hw: Hardware, line: Line, flash: Words)
      ensures Valid() && this.hw == hw && this.line == line
      ensures fresh(fileName) && fresh(fileSize) && fresh(tab1024) && fresh(packetData)
      ensures this.flash == flash && pos == 0 && flashComplete && flashDestination == APPLICATION_ADDRESS
    {
      this.hw, this.line, this.flash, pos := hw, line, flash, 0;
      sent, ops := [], [];
      fileName := new byte[FILE_NAME_LENGTH + 1](_ => 0);
      fileSize := new byte[FILE_SIZE_LENGTH + 1](_ => 0);
      tab1024 := new byte[PACKET_1K_SIZE](_ => 0);
      packetData := new byte[PACKET_BUFFER](_ => 0);
      flashDestination, nbrOfPage, eraseCounter, flashComplete := APPLICATION_ADDRESS, 0, 0, true;
      packetsReceived, errors, sessionBegin, size := 0, 0, false, 0;
    }

    // -------------------------------------------------------------------------------------------
    // The line

    method ReceiveByte(timeout: nat) returns (status: int, c: byte)
      modifies this`pos
      ensures match NextByte(line, old(pos), timeout)
              case Timeout(p) => status == -1 && pos == p
              case Got(b, p) => status == 0 && c == b && pos == p
    {
      var left := timeout;
      c := 0;
      while left > 0
        invariant Await(line, pos, pos + left) == NextByte(line, old(pos), timeout)
      {
        left := left - 1;
        var poll := line(pos);
        pos := pos + 1;
        if poll.Arrived? {
          return 0, poll.b;
        }
      }
      return -1, c;
    }

    method SendByte(c: byte)
      modifies this`sent
      ensures sent == old(sent) + [c]
    {
      sent := sent + [c];
    }

    /** Two CA bytes before a return. */
    method AbortSession(code: int) returns (result: Option<int>)
      modifies this`sent
      ensures sent == old(sent) + [CA, CA] && result == Some(code)
    {
      SendByte(CA);
      SendByte(CA);
      assert old(sent) + [CA] + [CA] == old(sent) + [CA, CA];
      result := Some(code);
    }

    /** The rest of a frame that starts with `c`, and the test of its sequence bytes. */
    method ReceiveBody(c: byte, packetSize: nat) returns (status: int)
      requires Valid() && (packetSize == PACKET_SIZE || packetSize == PACKET_1K_SIZE)
      modifies this`pos, packetData
      ensures var r := Body(line, old(pos), old(packetData[..]), c, packetSize);
              packetData[..] == r.buf && pos == r.pos && status == if r.packet.Data? then 0 else -1
    {
      hide Await;
      ghost var before := packetData[..];
      packetData[0] := c;
      assert packetData[..] == before[0 := c];
      var i: nat := 1;
      ghost var whole := Fill(line, pos, packetData[..], 1, packetSize + PACKET_OVERHEAD);
      while i < packetSize + PACKET_OVERHEAD
        invariant 1 <= i <= packetSize + PACKET_OVERHEAD
        invariant Fill(line, pos, packetData[..], i, packetSize + PACKET_OVERHEAD) == whole
      {
        ghost var at := packetData[..];
        var b: byte;
        status, b := ReceiveByte(NAK_TIMEOUT);
        if status != 0 {
          return -1;
        }
        packetData[i] := b;
        assert packetData[..] == at[i := b];
        i := i + 1;
      }
      if packetData[PACKET_SEQNO_INDEX] != 0xff - packetData[PACKET_SEQNO_COMP_INDEX] {
        return -1;
      }
      return 0;
    }

    method ReceivePacket() returns (status: int, length: int, ghost packet: Packet)
      requires Valid()
      modifies this`pos, packetData
      ensures Reception(packet, packetData[..], pos) == Receive(line, old(pos), old(packetData[..]))
      ensures status == Status(packet) && length == Length(packet)
    {
      packet := Receive(line, pos, packetData[..]).packet;
      var c: byte;
      length := 0;
      status, c := ReceiveByte(NAK_TIMEOUT);
      if status != 0 {
        return -1, 0, packet;
      }
      if c == SOH {
        status := ReceiveBody(c, PACKET_SIZE);
        length := if status == 0 then PACKET_SIZE else 0;
      } else if c == STX {
        status := ReceiveBody(c, PACKET_1K_SIZE);
        length := if status == 0 then PACKET_1K_SIZE else 0;
      } else if c == EOT {
        status := 0;
      } else if c == CA {
        status, c := ReceiveByte(NAK_TIMEOUT);
        if status == 0 && c == CA {
          length := -1;
        } else {
          status := -1;
        }
      } else if c == ABORT1 || c == ABORT2 {
        status := 1;
      } else {
        status := -1;
      }
    }

    // -------------------------------------------------------------------------------------------
    // The filename packet

    /** A copy loop: bytes of the packet from `start` to the byte `stop`, at most `limit`, and a NUL. */
    method CopyText(dst: array<byte>, start: nat, stop: byte, limit: nat) returns (filePtr: nat)
      requires Valid() && start + limit < PACKET_BUFFER && dst.Length == limit + 1 && dst != packetData
      modifies dst
      ensures filePtr == start + Scan(packetData[..], start, stop, limit)
      ensures dst[..] == Stored(old(dst[..]), packetData[start..filePtr])
    {
      hide Scan, Copied, Stored;
      ghost var buf, was := packetData[..], dst[..];
      ghost var n := Scan(buf, start, stop, limit);
      CopiedNone(was, buf, start);
      var i: nat := 0;
      filePtr := start;
      while packetData[filePtr] != stop && i < limit
        invariant i <= limit && filePtr == start + i && packetData[..] == buf
        invariant i <= n
        invariant dst[..] == Copied(was, buf, start, i)
        decreases limit - i
      {
        CopiedNext(was, buf, start, i);
        dst[i] := packetData[filePtr];
        assert packetData[..] == buf;
        assert dst[..] == Copied(was, buf, start, i)[i := buf[filePtr]];
        i, filePtr := i + 1, filePtr + 1;
      }
      CopiedAll(was, buf, start, i);
      dst[i] := 0;
      assert dst[..] == Copied(was, buf, start, i)[i := 0];
    }

    static ghost function Copied(was: seq<byte>, buf: seq<byte>, start: nat, i: nat): (r: seq<byte>)
      requires start + i <= |buf| && i <= |was|
      ensures |r| == |was|
    {
      buf[start..start + i] + was[i..]
    }

    static lemma CopiedNone(was: seq<byte>, buf: seq<byte>, start: nat)
      requires start <= |buf|
      ensures Copied(was, buf, start, 0) == was
    {
    }

    static lemma CopiedNext(was: seq<byte>, buf: seq<byte>, start: nat, i: nat)
      requires start + i < |buf| && i < |was|
      ensures Copied(was, buf, start, i + 1) == Copied(was, buf, start, i)[i := buf[start + i]]
    {
    }

    static lemma CopiedAll(was: seq<byte>, buf: seq<byte>, start: nat, i: nat)
      requires start + i <= |buf| && i < |was|
      ensures Copied(was, buf, start, i)[i := 0] == Stored(was, buf[start..start + i])
    {
    }

    /** The copy loops for the name and the size text, and the conversion of the latter. */
    method CopyHeader()
      requires Valid()
      modifies this`size, fileName, fileSize
      ensures View(None) == Headed(old(View(None)), packetData[..])
    {
      hide Scan, Stored, Converted;
      var filePtr := CopyText(fileName, PACKET_HEADER, 0, FILE_NAME_LENGTH);
      filePtr := CopyText(fileSize, filePtr + 1, SPACE, FILE_SIZE_LENGTH);
      var res;
      res, size := Str2Int(fileSize, size);
    }

    /** The variables that flash operations change are those of `s`. */
    ghost predicate Holds(s: State)
      reads this
    {
      && flash == s.flash && ops == s.ops && flashComplete == s.complete
      && flashDestination == s.dest && sent == s.replies
    }

    /** One pass of the erase loop. */
    method ErasePage(page: word)
      modifies this`flashComplete, this`flash, this`ops
      ensures flashComplete == hw.completes(|old(ops)|, page)
      ensures flash == AfterErase(hw, old(flash), |old(ops)|, page)
      ensures ops == old(ops) + [FlashOp.Erase(page, flashComplete)]
    {
      flashComplete := hw.completes(|ops|, page);
      flash := AfterErase(hw, flash, |ops|, page);
      ops := ops + [FlashOp.Erase(page, flashComplete)];
    }

    /** The erase loop over the pages that the size calls for. */
    method ErasePages(ghost s: State)
      requires Holds(s) && s.size == size
      modifies this`nbrOfPage, this`eraseCounter, this`flashComplete, this`flash, this`ops
      ensures Holds(Erased(hw, s, 0, Pages(size)))
    {
      hide AfterErase, Pages, ToU32;
      nbrOfPage, eraseCounter := Pages(size), 0;
      ghost var p := s;
      while eraseCounter < nbrOfPage && flashComplete
        invariant nbrOfPage == Pages(size) && Holds(p)
        invariant Erased(hw, p, eraseCounter, nbrOfPage) == Erased(hw, s, 0, nbrOfPage)
        decreases nbrOfPage - eraseCounter
      {
        var page := ToU32(flashDestination + PAGE_SIZE * eraseCounter);
        ErasePage(page);
        p := p.(complete := flashComplete, flash := flash, ops := ops);
        eraseCounter := eraseCounter + 1;
      }
    }

    method FilenamePacket() returns (result: Option<int>)
      requires Valid()
      modifies this, fileName, fileSize
      ensures pos == old(pos)
      ensures View(result) == AcceptHeader(hw, old(View(None)), packetData[..])
    {
      hide Erased, Headed, Pages;
      if packetData[PACKET_HEADER] == 0 {
        SendByte(ACK);
        return Some(size);
      }
      CopyHeader();
      if size > FLASH_SIZE - 1 {
        result := AbortSession(-1);
        return;
      }
      ErasePages(View(None));
      SendByte(ACK);
      SendByte(CRC16);
      assert old(sent) + [ACK] + [CRC16] == old(sent) + [ACK, CRC16];
      packetsReceived, sessionBegin := packetsReceived + 1, true;
      return None;
    }

    // -------------------------------------------------------------------------------------------
    // A data packet

    /** `memcpy` of the packet's payload to the RAM buffer. */
    method CopyPayload(length: nat)
      requires Valid() && length <= PACKET_1K_SIZE
      modifies tab1024
      ensures tab1024[..] == packetData[PACKET_HEADER..PACKET_HEADER + length] + old(tab1024[..])[length..]
    {
      forall k | 0 <= k < length {
        tab1024[k] := packetData[PACKET_HEADER + k];
      }
    }

    /** One pass of the programming loop; a failed verification ends the session. */
    method ProgramWord(data: word, ghost s: State) returns (result: Option<int>)
      requires Holds(s) && s.result.None?
      modifies this`flash, this`ops, this`flashDestination, this`sent
      ensures Holds(ProgramOne(hw, s, data)) && result == ProgramOne(hw, s, data).result
    {
      var k := |ops|;
      flash := AfterProgram(hw, flash, k, flashDestination);
      ops := ops + [FlashOp.Program(flashDestination, data)];
      if ReadWord(hw, flash, k, flashDestination) != data {
        result := AbortSession(-2);
        return;
      }
      flashDestination := ToU32(flashDestination + 4);
      return None;
    }

    /** The programming loop over a packet of `length` bytes. */
    method ProgramPacket(length: nat, ghost s: State) returns (result: Option<int>)
      requires tab1024.Length == PACKET_1K_SIZE && length <= PACKET_1K_SIZE && length % 4 == 0
      requires Holds(s) && s.size == size && s.ram == tab1024[..] && s.result.None?
      modifies this`flash, this`ops, this`flashDestination, this`sent
      ensures Holds(Programmed(hw, s, 0, length)) && result == Programmed(hw, s, 0, length).result
    {
      hide ProgramOne, WordAt;
      var j: nat, ramSource: nat := 0, 0;
      result := None;
      ghost var p := s;
      while j < length && flashDestination < Limit(size)
        invariant j % 4 == 0 && ramSource == j <= length && result == None == p.result
        invariant Holds(p) && p.size == size && p.ram == s.ram
        invariant Programmed(hw, p, j, length) == Programmed(hw, s, 0, length)
      {
        assert ramSource + 4 <= length;
        var data := WordAt(tab1024[..], ramSource);
        result := ProgramWord(data, p);
        p := ProgramOne(hw, p, data);
        if result.Some? {
          return;
        }
        ramSource, j := ramSource + 4, j + 4;
      }
    }

    method DataPacket(length: nat) returns (result: Option<int>)
      requires Valid() && (length == PACKET_SIZE || length == PACKET_1K_SIZE)
      modifies this, tab1024
      ensures pos == old(pos)
      ensures View(result) == AcceptData(hw, old(View(None)), packetData[..], length)
    {
      hide Programmed;
      CopyPayload(length);
      result := ProgramPacket(length, View(None));
      if result.None? {
        SendByte(ACK);
        packetsReceived, sessionBegin := packetsReceived + 1, true;
      }
    }

    // -------------------------------------------------------------------------------------------
    // The session

    /** The session variables as the function's initialisers leave them. */
    static ghost function Opened(s: State): State {
      s.(packets := 0, errors := 0, begun := false, size := 0, dest := APPLICATION_ADDRESS,
         ops := [], replies := [], result := None)
    }

    /** The switch on the outcome of `Receive_Packet`; `packets_received` is set back by the
        caller when the file is done. */
    method Dispatch(status: int, length: int, ghost packet: Packet) returns (result: Option<int>, fileDone: bool)
      requires Valid() && Genuine(Event(packet, packetData[..]))
      requires status == Status(packet) && length == Length(packet)
      modifies this, fileName, fileSize, tab1024
      ensures pos == old(pos) && (fileDone ==> result.None?)
      ensures (if fileDone then View(result).(packets := 0) else View(result))
              == Step(hw, old(View(None)), Event(packet, packetData[..]))
    {
      result, fileDone := None, false;
      match status {
        case 0 =>
          errors := 0;
          if length == -1 {
            SendByte(ACK);
            result := Some(0);
          } else if length == 0 {
            SendByte(ACK);
            fileDone := true;
          } else if packetData[PACKET_SEQNO_INDEX] != packetsReceived % 0x100 {
            SendByte(NAK);
          } else if packetsReceived == 0 {
            result := FilenamePacket();
          } else {
            result := DataPacket(length);
          }
        case 1 =>
          result := AbortSession(-3);
        case _ =>
          if sessionBegin {
            errors := errors + 1;
          }
          if errors > MAX_ERRORS {
            result := AbortSession(0);
          } else {
            SendByte(CRC16);
          }
      }
    }

    method Open()
      requires Valid()
      modifies this
      ensures View(None) == Opened(old(View(None))) && pos == old(pos)
    {
      flashDestination, sent, ops, size := APPLICATION_ADDRESS, [], [], 0;
      packetsReceived, sessionBegin, errors := 0, false, 0;
    }

    /** `Ymodem_Receive`, observed for at most `rounds` calls of `Receive_Packet`; `None` when it is
        still running then. It does exactly what `Run` says. Until a filename packet is taken, flash, FLASHStatus
        and arrays are those of the caller; words that no operation touches always are. */
    method YmodemReceive(rounds: nat) returns (result: Option<int>, ghost h: L.History)
      requires Valid()
      modifies this, fileName, fileSize, tab1024, packetData
      ensures Position(View(result), packetData[..], pos)
              == Run(hw, line, Position(Opened(old(View(None))), old(packetData[..]), old(pos)), rounds)
      ensures h == L.Log(hw, Opened(old(View(None))), Events(line, old(pos), old(packetData[..]), rounds))
      ensures h.sizes == [] ==> flash == old(flash) && flashComplete == old(flashComplete) && ops == []
      ensures h.sizes == [] ==> tab1024[..] == old(tab1024[..]) && flashDestination == APPLICATION_ADDRESS
      ensures h.sizes == [] && result != Some(-1) ==> fileName[..] == old(fileName[..]) && fileSize[..] == old(fileSize[..])
      ensures |h.sizes| == 1 && 0 <= h.sizes[0] ==> F.ElsewhereSame(old(flash), flash, h.sizes[0])
      ensures flash.Keys == old(flash).Keys
      ensures forall a :: a in old(flash) && J.Spared(ops, 0, a) ==> flash[a] == old(flash)[a]
    {
      hide Run, Exec, L.Log, J.Spared, F.ElsewhereSame;
      ghost var es := Events(line, pos, packetData[..], rounds);
      ghost var s := Opened(View(None));
      h := L.Log(hw, s, es);
      C.CallEffect(hw, s, es);
      RunIsExec(hw, line, Position(s, packetData[..], pos), rounds);
      Open();
      result := Serve(rounds);
    }

    /** The two nested loops; each pass of the outer one starts a file. */
    method Serve(rounds: nat) returns (result: Option<int>)
      requires Valid() && packetsReceived == 0
      modifies this, fileName, fileSize, tab1024, packetData
      ensures Position(View(result), packetData[..], pos)
              == Run(hw, line, old(Position(View(None), packetData[..], pos)), rounds)
    {
      hide Step, Receive;
      var n: nat := 0;
      ghost var p := Position(View(None), packetData[..], pos);
      ghost var goal := Run(hw, line, p, rounds);
      while true
        invariant n <= rounds
        invariant p == Position(View(None).(packets := 0), packetData[..], pos)
        invariant Run(hw, line, p, rounds - n) == goal
        decreases rounds - n
      {
        ghost var n0 := n;
        packetsReceived := 0;
        var fileDone := false;
        while !fileDone
          invariant n0 <= n <= rounds && (fileDone ==> n0 < n)
          invariant p == Position(if fileDone then View(None).(packets := 0) else View(None), packetData[..], pos)
          invariant Run(hw, line, p, rounds - n) == goal
          decreases rounds - n, !fileDone
        {
          if n == rounds {
            return None;
          }
          var status, length;
          ghost var packet;
          status, length, packet := ReceivePacket();
          result, fileDone := Dispatch(status, length, packet);
          p := Round(hw, line, p);
          n := n + 1;
          if result.Some? {
            return;
          }
        }
      }
    }
  }
}
