/** What the programming loop does for any announced size and at any destination. */
module Programming {
  import opened Machine
  import opened Framing
  import opened Flash
  import opened Session
  import opened Ledger
  import opened FileImage

  /** An operation that programs word `k` of some bytes that go to `dest`, where the guard admits it. */
  predicate ProgramsWord(op: FlashOp, dest: word, size: int, bytes: seq<byte>, k: nat) {
    && 4 * k + 4 <= |bytes|
    && op == Program(ToU32(dest + 4 * k), WordAt(bytes, 4 * k)) && op.addr < Limit(size)
  }

  /** From `s` to `r` the loop took words of `bytes`, which go to `dest`, from the `i`th on, in order: up to one that
      the guard did not admit, one that was not read back, or the last. */
  ghost predicate Programs(s: State, r: State, dest: word, bytes: seq<byte>, i: nat) {
    var k := |r.ops| - |s.ops|;
    && s.ops <= r.ops && 4 * (i + k) <= |bytes|
    && (forall j :: |s.ops| <= j < |r.ops| ==> ProgramsWord(r.ops[j], dest, s.size, bytes, i + (j - |s.ops|)))
    && (r.result.None? ==> r.dest == ToU32(dest + 4 * (i + k)) && (4 * (i + k) == |bytes| || r.dest >= Limit(s.size)))
    && (r.result.Some? ==> k > 0 && r.dest == ToU32(dest + 4 * (i + k - 1)))
  }

  lemma NoneProgrammed(s: State, dest: word, bytes: seq<byte>, i: nat)
    requires s.result.None? && 4 * i <= |bytes| && s.dest == ToU32(dest + 4 * i) && (4 * i == |bytes| || s.dest >= Limit(s.size))
    ensures Programs(s, s, dest, bytes, i)
  {
  }

  lemma WordInside(op: FlashOp, dest: word, size: int, bytes: seq<byte>, k: nat)
    requires ProgramsWord(op, dest, size, bytes, k)
    ensures 4 * k + 4 <= |bytes|
  {
  }

  lemma MoreProgrammed(s: State, t: State, r: State, dest: word, bytes: seq<byte>, i: nat)
    requires |t.ops| == |s.ops| + 1 && t.ops[..|s.ops|] == s.ops && t.size == s.size
    requires ProgramsWord(t.ops[|s.ops|], dest, s.size, bytes, i)
    requires if t.result.None? then Programs(t, r, dest, bytes, i + 1) else r == t && t.dest == ToU32(dest + 4 * i)
    ensures Programs(s, r, dest, bytes, i)
  {
    hide ToU32, Limit, ProgramsWord;
    WordInside(t.ops[|s.ops|], dest, s.size, bytes, i);
    assert t.ops == s.ops + [t.ops[|s.ops|]];
    forall j | |s.ops| <= j < |r.ops|
      ensures ProgramsWord(r.ops[j], dest, s.size, bytes, i + (j - |s.ops|))
    {
      if j == |s.ops| {
        assert r.ops[j] == t.ops[j];
      } else {
        assert ProgramsWord(r.ops[j], dest, t.size, bytes, i + 1 + (j - |t.ops|));
      }
    }
  }

  lemma Onwards(dest: word, i: nat)
    ensures ToU32(ToU32(dest + 4 * i) + 4) == ToU32(dest + 4 * (i + 1))
  {
  }

  lemma {:induction false} ProgramsInOrder(hw: Hardware, s: State, dest: word, i: nat, n: nat)
    requires |s.ram| == PACKET_1K_SIZE && 4 * i <= n <= PACKET_1K_SIZE && n % 4 == 0
    requires s.result.None? && s.dest == ToU32(dest + 4 * i)
    ensures Programs(s, Programmed(hw, s, 4 * i, n), dest, s.ram[..n], i)
    decreases n - 4 * i
  {
    hide ToU32, Limit, WordAt, Programs;
    if 4 * i < n && s.dest < Limit(s.size) {
      var data := WordAt(s.ram, 4 * i);
      var t := ProgramOne(hw, s, data);
      Onwards(dest, i);
      assert data == WordAt(s.ram[..n], 4 * i) by { WordOfFront(s.ram, n, i); }
      assert t.ops[|s.ops|] == Program(s.dest, data);
      if t.result.None? {
        ProgramsInOrder(hw, t, dest, i + 1, n);
      } else {
        assert Programmed(hw, t, 4 * i + 4, n) == t;
      }
      MoreProgrammed(s, t, Programmed(hw, t, 4 * i + 4, n), dest, s.ram[..n], i);
    } else {
      NoneProgrammed(s, dest, s.ram[..n], i);
    }
  }

  lemma WordOfFront(bytes: seq<byte>, n: nat, i: nat)
    requires 4 * i + 4 <= n <= |bytes|
    ensures WordAt(bytes[..n], 4 * i) == WordAt(bytes, 4 * i)
  {
  }

  lemma DestIsFirst(dest: word)
    ensures ToU32(dest + 4 * 0) == dest
  {
  }

  /** A data packet in sequence, for any announced size and at any destination: its words are programmed in order from
      the destination on, modulo 2^32, as long as the guard admits them and they are read back. */
  lemma PacketPrograms(hw: Hardware, s: State, e: Event)
    requires Shaped(s) && s.result.None? && Genuine(e) && e.packet.Data? && InSequence(s, e) && s.packets != 0
    ensures Programs(s, Step(hw, s, e), s.dest, Payload(e), 0)
  {
    hide Step, Programmed, ToU32, Limit, ProgramsWord;
    var c, n := Loaded(s, e), e.packet.length;
    DataStepIs(hw, s, e);
    DestIsFirst(s.dest);
    ProgramsInOrder(hw, c, s.dest, 0, n);
  }
}
