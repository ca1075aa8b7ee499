/** Whole sessions of several files: where the writes go, and for which announced sizes that is so. */
module Batch {
  import opened Machine
  import opened Framing
  import opened Header
  import opened Flash
  import opened Session
  import opened Ledger
  import opened Image
  import opened FileImage
  import opened Erasing

  /** The words programmed are aligned words of the application's region, at ascending addresses:
      none is out of range and none is programmed twice. */
  ghost predicate WrittenOnce(ops: seq<FlashOp>) {
    && (forall j :: 0 <= j < |ops| && ops[j].Program? ==>
          ops[j].addr % 4 == 0 && APPLICATION_ADDRESS <= ops[j].addr < APPLICATION_ADDRESS + FLASH_SIZE)
    && (forall i, j :: 0 <= i < j < |ops| && ops[i].Program? && ops[j].Program? ==> ops[i].addr < ops[j].addr)
  }

  ghost predicate Below(ops: seq<FlashOp>, dest: nat) {
    forall j :: 0 <= j < |ops| && ops[j].Program? ==> ops[j].addr < dest
  }

  ghost predicate Batched(s: State, h: History) {
    AllTame(h.sizes) ==>
      InRegion(s.dest) && WrittenOnce(s.ops) && (s.result.None? ==> Below(s.ops, s.dest))
  }

  lemma MoreWrites(ops: seq<FlashOp>, dest: nat, data: seq<byte>)
    requires WrittenOnce(ops) && Below(ops, dest) && InRegion(dest)
    requires |data| % 4 == 0 && dest + |data| <= APPLICATION_ADDRESS + FLASH_SIZE
    ensures WrittenOnce(ops + Writes(dest, data)) && Below(ops + Writes(dest, data), dest + |data|)
  {
    hide WordAt;
    var all := ops + Writes(dest, data);
    assert forall j :: |ops| <= j < |all| ==> all[j].Program? && all[j].addr == dest + 4 * (j - |ops|);
    forall i, j | 0 <= i < j < |all| && all[i].Program? && all[j].Program?
      ensures all[i].addr < all[j].addr
    {
      if i < |ops| {
        assert all[i] == ops[i];
      }
    }
  }

  lemma MoreErases(ops: seq<FlashOp>, more: seq<FlashOp>, dest: nat)
    requires WrittenOnce(ops) && Below(ops, dest) && forall j :: 0 <= j < |more| ==> more[j].Erase?
    ensures WrittenOnce(ops + more) && Below(ops + more, dest)
  {
    var all := ops + more;
    assert forall j :: |ops| <= j < |all| ==> all[j] == more[j - |ops|];
  }

  lemma PackedWrites(s: State, r: State, n: nat) returns (data: seq<byte>)
    requires n <= |s.ram| && n % 4 == 0 && Packed(s, r, 0, n) && InRegion(s.dest) && Tame(s.size)
    ensures |data| % 4 == 0 && s.dest + |data| <= APPLICATION_ADDRESS + FLASH_SIZE && |data| <= Room(s.dest, s.size)
    ensures r.ops == s.ops + Writes(s.dest, data) && s.dest <= r.dest
    ensures r.result.None? ==> r.dest == s.dest + |data|
  {
    hide Burn, Writes;
    data := s.ram[0..if r.result.None? then Min(n, Room(s.dest, s.size)) else r.dest - s.dest + 4];
  }

  /** The writes of a data packet, whether or not one of them fails to verify. */
  lemma DataWrites(hw: Hardware, s: State, e: Event) returns (data: seq<byte>)
    requires Shaped(s) && s.result.None? && Genuine(e) && e.packet.Data? && Tame(s.size) && InRegion(s.dest)
    requires InSequence(s, e) && s.packets != 0
    ensures |data| % 4 == 0 && s.dest + |data| <= APPLICATION_ADDRESS + FLASH_SIZE && |data| <= Room(s.dest, s.size)
    ensures var t := Step(hw, s, e);
            && t.ops == s.ops + Writes(s.dest, data) && s.dest <= t.dest
            && (t.result.None? ==> t.dest == s.dest + |data|)
  {
    hide Step, Programmed, Writes, Packed, InRegion, Tame;
    var n, c := e.packet.length, Loaded(s, e);
    PacketImage(hw, c, 0, n);
    DataStepIs(hw, s, e);
    data := PackedWrites(c, Programmed(hw, c, 0, n), n);
  }

  lemma BatchedData(hw: Hardware, s: State, e: Event, h: History)
    requires Shaped(s) && s.result.None? && Genuine(e) && Ordered(s, h) && Imaged(s, h) && Batched(s, h)
    requires e.packet.Data? && InSequence(s, e) && s.packets != 0
    ensures AllTame(h.sizes) ==>
              var t := Step(hw, s, e);
              WrittenOnce(t.ops) && s.dest <= t.dest && (t.result.None? ==> Below(t.ops, t.dest))
  {
    if AllTame(h.sizes) {
      hide Step, Tame, InRegion, Writes, WrittenOnce, Below;
      var data := DataWrites(hw, s, e);
      MoreWrites(s.ops, s.dest, data);
    }
  }

  lemma BatchedHeader(hw: Hardware, s: State, e: Event)
    requires Shaped(s) && s.result.None? && Genuine(e) && WrittenOnce(s.ops) && Below(s.ops, s.dest)
    requires e.packet.Data? && InSequence(s, e) && s.packets == 0
    ensures var t := Step(hw, s, e); t.dest == s.dest && WrittenOnce(t.ops) && Below(t.ops, t.dest)
  {
    var g := Headed(s.(errors := 0), e.buf);
    var more := ErasedOps(hw, g, 0, Pages(g.size));
    MoreErases(s.ops, more, s.dest);
    hide Erased, Headed, Pages, WrittenOnce, Below;
  }

  /** One packet: the destination never moves back, and the writes stay in order. */
  lemma BatchedStep(hw: Hardware, s: State, e: Event, h: History)
    requires Shaped(s) && s.result.None? && Genuine(e) && Ordered(s, h) && Imaged(s, h) && Batched(s, h)
    ensures var t := Step(hw, s, e);
            var g := Observe(s, e, t, h);
            Batched(t, g) && (AllTame(g.sizes) ==> s.dest <= t.dest)
  {
    hide Step, Observe, WrittenOnce, Below, InRegion, Tame, AllTame, Content, Kept;
    var t := Step(hw, s, e);
    ImagedStep(hw, s, e, h);
    TameBefore(hw, s, e, h);
    if !e.packet.Data? || !InSequence(s, e) {
      IdleEffect(hw, s, e);
      IdleHistory(s, e, t, h);
    } else if s.packets != 0 {
      TakenObserved(hw, s, e, h);
      BatchedData(hw, s, e, h);
    } else {
      if t.result.Some? {
        NoFile(hw, s, e, h);
      } else {
        NewFile(hw, s, e, h);
      }
      if AllTame(h.sizes) {
        BatchedHeader(hw, s, e);
      }
    }
  }

  lemma TameBefore(hw: Hardware, s: State, e: Event, h: History)
    requires Shaped(s) && s.result.None? && Genuine(e)
    ensures AllTame(Observe(s, e, Step(hw, s, e), h).sizes) ==> AllTame(h.sizes)
  {
    hide Step, Tame;
    var g := Observe(s, e, Step(hw, s, e), h);
    assert forall i :: 0 <= i < |h.sizes| ==> g.sizes[i] == h.sizes[i];
  }

  /** Range and write-once over whole sessions, any number of files: when every announced size is
      tame, the destination stays an aligned address of the region or its end, and no word is
      programmed out of range or twice. */
  lemma {:induction false} BatchHolds(hw: Hardware, s: State, es: seq<Event>)
    requires Fresh(s) && AllGenuine(es)
    ensures Batched(Exec(hw, s, es), Log(hw, s, es))
    decreases |es|
  {
    if es == [] {
    } else {
      BatchHolds(hw, s, es[..|es| - 1]);
      hide Batched, Imaged, Step, Balanced, Budgeted, Explained;
      var t := Exec(hw, s, es[..|es| - 1]);
      if t.result.None? {
        BooksHold(hw, s, es[..|es| - 1]);
        ImageHolds(hw, s, es[..|es| - 1]);
        BatchedStep(hw, t, es[|es| - 1], Log(hw, s, es[..|es| - 1]));
      }
    }
  }

  // ---------------------------------------------------------------------------------------------
  // For which sizes the region is respected

  /** The guard of the programming loop. */
  predicate Admits(dest: word, size: int) { dest < Limit(size) }

  /** For a size that the header test let through, the guard keeps writes inside the region exactly
      when the size is not below -ApplicationAddress. */
  lemma GuardKeepsRegion(size: int)
    requires -0x8000_0000 <= size <= FLASH_SIZE - 1
    ensures (forall dest: word :: Admits(dest, size) ==> dest < APPLICATION_ADDRESS + FLASH_SIZE) <==> Tame(size)
  {
    assert !Tame(size) ==> Admits(APPLICATION_ADDRESS + FLASH_SIZE, size);
  }

  lemma {:induction false} ProgrammedOps(hw: Hardware, s: State, j: nat, n: nat)
    requires |s.ram| == PACKET_1K_SIZE && n <= PACKET_1K_SIZE && j % 4 == n % 4 == 0
    ensures s.ops <= Programmed(hw, s, j, n).ops
    decreases |s.ram| - j
  {
    hide WordAt, AfterProgram, ReadWord;
    if j < n && s.dest < Limit(s.size) && s.result.None? {
      ProgrammedOps(hw, ProgramOne(hw, s, WordAt(s.ram, j)), j + 4, n);
    }
  }

  lemma FirstWrite(hw: Hardware, s: State, n: nat)
    requires |s.ram| == PACKET_1K_SIZE && 4 <= n <= PACKET_1K_SIZE && n % 4 == 0 && s.result.None?
    ensures var r := Programmed(hw, s, 0, n);
            && (s.dest < Limit(s.size) ==> |s.ops| < |r.ops| && r.ops[|s.ops|] == Program(s.dest, WordAt(s.ram, 0)))
            && (s.dest >= Limit(s.size) ==> r.ops == s.ops)
  {
    hide Limit, WordAt;
    var one := ProgramOne(hw, s, WordAt(s.ram, 0));
    if s.dest < Limit(s.size) {
      ProgrammedOps(hw, one, 4, n);
    }
  }

  /** At the end of the region, a data packet in sequence writes past it exactly when the size is
      not tame. */
  lemma EscapesIffUntame(hw: Hardware, s: State, e: Event)
    requires Shaped(s) && s.result.None? && Genuine(e) && e.packet.Data?
    requires InSequence(s, e) && s.packets != 0
    requires s.dest == APPLICATION_ADDRESS + FLASH_SIZE && -0x8000_0000 <= s.size <= FLASH_SIZE - 1
    ensures var t := Step(hw, s, e);
            Tame(s.size) <==> t.ops == s.ops
    ensures var t := Step(hw, s, e);
            !Tame(s.size) ==> |s.ops| < |t.ops| && t.ops[|s.ops|] == Program(s.dest, WordAt(Payload(e), 0))
  {
    hide Step, Programmed;
    var c := Loaded(s, e);
    DataStepIs(hw, s, e);
    FirstWrite(hw, c, e.packet.length);
    assert WordAt(c.ram, 0) == WordAt(c.ram[..e.packet.length], 0);
  }

  /** The filename packet of a later file, all its erases done: of the words below the destination,
      which belong to the files before, exactly those on the destination's own page are lost. */
  lemma NextFileErasesTail(hw: Hardware, s: State, e: Event, a: nat)
    requires Shaped(s) && s.result.None? && Genuine(e) && e.packet.Data? && InRegion(s.dest)
    requires InSequence(s, e) && s.packets == 0
    requires var t := Step(hw, s, e); t.result.None? && t.complete && 0 < t.size
    requires a in s.flash && a < s.dest
    ensures Step(hw, s, e).flash.Keys == s.flash.Keys
    ensures Step(hw, s, e).flash[a] == if PageOf(a) == PageOf(s.dest) then ERASED else s.flash[a]
  {
    var g := Headed(s.(errors := 0), e.buf);
    ErasedClears(hw, g, 0, Pages(g.size));
    hide Erased, Headed;
  }

  // ---------------------------------------------------------------------------------------------
  // The destination never moves back

  /** A size that puts the end of the image just below address 0. */
  predicate Brims(size: int) { -3 <= APPLICATION_ADDRESS + size < 0 }

  /** The destination of an aligned word that the guard admits moves forward exactly when the size does not
      brim: otherwise it wraps at the last word of the address space. */
  lemma ForwardIffNotBrims(size: int)
    requires -0x8000_0000 <= size <= FLASH_SIZE - 1
    ensures (forall dest: word :: dest % 4 == 0 && Admits(dest, size) ==> dest < ToU32(dest + 4)) <==> !Brims(size)
  {
    if Brims(size) {
      assert Admits(0xFFFF_FFFC, size) && ToU32(0xFFFF_FFFC + 4) == 0;
    }
  }

  ghost predicate Onward(s: State) {
    s.dest % 4 == 0 && -0x8000_0000 <= s.size <= FLASH_SIZE - 1 && !Brims(s.size)
  }

  lemma {:induction false} ProgrammedForward(hw: Hardware, s: State, j: nat, n: nat)
    requires |s.ram| == PACKET_1K_SIZE && n <= PACKET_1K_SIZE && j % 4 == n % 4 == 0 && Onward(s)
    ensures var r := Programmed(hw, s, j, n); s.dest <= r.dest && r.dest % 4 == 0
    decreases |s.ram| - j
  {
    hide WordAt, AfterProgram, ReadWord;
    if j < n && s.dest < Limit(s.size) && s.result.None? {
      ForwardIffNotBrims(s.size);
      assert Admits(s.dest, s.size);
      ProgrammedForward(hw, ProgramOne(hw, s, WordAt(s.ram, j)), j + 4, n);
    }
  }

  /** The size is an `int32_t` that the header test let through, and once data may come the destination can
      only move forward. */
  ghost predicate Forward(s: State, h: History) {
    && -0x8000_0000 <= s.size < 0x8000_0000
    && (h.open ==> s.size <= FLASH_SIZE - 1 && h.sizes != [] && h.sizes[|h.sizes| - 1] == s.size)
    && (NoneBrims(h.sizes) ==> s.dest % 4 == 0)
  }

  ghost predicate NoneBrims(sizes: seq<int>) {
    forall i :: 0 <= i < |sizes| ==> !Brims(sizes[i])
  }

  lemma ForwardData(hw: Hardware, s: State, e: Event)
    requires Shaped(s) && s.result.None? && Genuine(e) && e.packet.Data? && InSequence(s, e) && s.packets != 0
    ensures var t := Step(hw, s, e);
            t.size == s.size && (Onward(s) ==> s.dest <= t.dest && t.dest % 4 == 0)
  {
    hide Step, Programmed, Onward;
    DataStepIs(hw, s, e);
    if Onward(s) {
      assert Onward(Loaded(s, e)) by { SameOnward(s, Loaded(s, e)); }
      ProgrammedForward(hw, Loaded(s, e), 0, e.packet.length);
    }
  }

  lemma SameOnward(s: State, t: State)
    requires Onward(s) && t.dest == s.dest && t.size == s.size
    ensures Onward(t)
  {
  }

  lemma ForwardHeader(hw: Hardware, s: State, e: Event)
    requires Shaped(s) && s.result.None? && Genuine(e) && e.packet.Data? && InSequence(s, e) && s.packets == 0
    requires -0x8000_0000 <= s.size < 0x8000_0000
    ensures var t := Step(hw, s, e);
            t.dest == s.dest && -0x8000_0000 <= t.size < 0x8000_0000 && (t.result.None? ==> t.size <= FLASH_SIZE - 1)
  {
    hide Erased, Pages, NameText, FieldText, Parsed;
  }

  lemma ForwardIdle(hw: Hardware, s: State, e: Event, h: History)
    requires Shaped(s) && s.result.None? && Genuine(e) && Forward(s, h) && (e.packet.Data? ==> !InSequence(s, e))
    ensures Step(hw, s, e).dest == s.dest && Forward(Step(hw, s, e), Observe(s, e, Step(hw, s, e), h))
  {
    hide AcceptHeader, AcceptData, Brims;
  }

  lemma ForwardStep(hw: Hardware, s: State, e: Event, h: History)
    requires Shaped(s) && s.result.None? && Genuine(e) && Ordered(s, h) && Forward(s, h)
    ensures var t := Step(hw, s, e);
            var g := Observe(s, e, t, h);
            Forward(t, g) && (NoneBrims(g.sizes) ==> s.dest <= t.dest)
  {
    hide Step, Brims;
    var t := Step(hw, s, e);
    var g := Observe(s, e, t, h);
    if e.packet.Data? && InSequence(s, e) {
      DataStep(hw, s, e);
      if s.packets == 0 {
        ForwardHeader(hw, s, e);
        assert forall i :: 0 <= i < |h.sizes| ==> g.sizes[i] == h.sizes[i];
      } else {
        ForwardData(hw, s, e);
      }
    } else {
      ForwardIdle(hw, s, e, h);
    }
  }

  lemma {:induction false} ForwardHolds(hw: Hardware, s: State, es: seq<Event>)
    requires Fresh(s) && AllGenuine(es)
    ensures Forward(Exec(hw, s, es), Log(hw, s, es))
    decreases |es|
  {
    if es == [] {
    } else {
      hide Forward, Step, Balanced, Budgeted, Explained;
      ForwardHolds(hw, s, es[..|es| - 1]);
      var t := Exec(hw, s, es[..|es| - 1]);
      if t.result.None? {
        BooksHold(hw, s, es[..|es| - 1]);
        ForwardStep(hw, t, es[|es| - 1], Log(hw, s, es[..|es| - 1]));
      }
    }
  }

  /** In every run whose announced sizes do not brim, tame or not, no packet moves the destination back. */
  lemma NeverBack(hw: Hardware, s: State, es: seq<Event>)
    requires Fresh(s) && AllGenuine(es) && es != [] && NoneBrims(Log(hw, s, es).sizes)
    ensures Exec(hw, s, es[..|es| - 1]).dest <= Exec(hw, s, es).dest
  {
    hide Forward, Step, Balanced, Budgeted, Explained, NoneBrims;
    var front := es[..|es| - 1];
    ForwardHolds(hw, s, front);
    BooksHold(hw, s, front);
    var t := Exec(hw, s, front);
    if t.result.None? {
      ForwardStep(hw, t, es[|es| - 1], Log(hw, s, front));
    }
  }

  /** A decimal size text is let through by the header test exactly when its value is below FLASH_SIZE
      or at least 2^31; in the second case the size is negative. */
  lemma HeaderTest(v: word, field: seq<byte>, before: int)
    requires |field| == FILE_SIZE_LENGTH + 1
    ensures |Digits(v)| <= 10
    ensures var size := Converted(Stored(field, Digits(v)), before);
            && (size <= FLASH_SIZE - 1 <==> v <= FLASH_SIZE - 1 || 0x8000_0000 <= v)
            && (0 <= size <= FLASH_SIZE - 1 <==> v <= FLASH_SIZE - 1)
            && (Tame(size) <==> v <= FLASH_SIZE - 1 || 0x1_0000_0000 <= v + APPLICATION_ADDRESS)
  {
    SizeRoundTrip(v, field, before);
  }
}
