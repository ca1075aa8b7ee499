/** Runs that show that the conditions on sizes are needed, and what may happen without them: a device that
    accepts every write, filename packets, files of zeros, and what may follow. */
module Escape {
  import opened Machine
  import opened Framing
  import opened Header
  import opened Flash
  import opened Session
  import opened Ledger
  import opened Image
  import opened FileImage
  import opened Announce
  import opened Batch
  import opened Sweeps

  /** Every erase completes, and every word programmed holds zero, as does whatever is read elsewhere. */
  function Obliging(): Hardware {
    Hardware((k, page) => true, (k, a) => 0, (k, page) => 0)
  }

  function Zeros(n: nat): (zs: seq<byte>)
    ensures |zs| == n && forall i :: 0 <= i < n ==> zs[i] == 0
  {
    seq(n, _ => 0)
  }

  /** A filename packet for the name "A" with the decimal size text of `v`. */
  function Heading(v: word): (e: Event)
    ensures Genuine(e) && e.packet == Data(PACKET_SIZE) && e.buf[PACKET_SEQNO_INDEX] == 0
  {
    var text := [0x41, 0] + Digits(v) + [SPACE];
    var payload := text + Zeros(PACKET_BUFFER);
    Event(Data(PACKET_SIZE), [SOH, 0, 0xff] + payload[..PACKET_BUFFER - 3])
  }

  /** Data packet `k` of 1024 zeros. */
  function ZeroPacket(k: nat): (e: Event)
    ensures Genuine(e) && e.packet == Data(PACKET_1K_SIZE) && e.buf[PACKET_SEQNO_INDEX] == k % 0x100
    ensures Payload(e) == Zeros(PACKET_1K_SIZE)
  {
    Event(Data(PACKET_1K_SIZE), [STX, k % 0x100, 0xff - k % 0x100] + Zeros(PACKET_BUFFER - 3))
  }

  /** An EOT, and the empty filename packet. */
  function Eot(): (e: Event)
    ensures Genuine(e) && e.packet == EndOfFile
  {
    Event(EndOfFile, Zeros(PACKET_BUFFER))
  }

  function Closing(): (e: Event)
    ensures Genuine(e) && e.packet == Data(PACKET_SIZE) && e.buf[PACKET_SEQNO_INDEX] == 0 && e.buf[PACKET_HEADER] == 0
  {
    Event(Data(PACKET_SIZE), [SOH, 0, 0xff] + Zeros(PACKET_BUFFER - 3))
  }

  /** A filename packet and the first `n` data packets of a file, behind `front`. */
  function ZeroRun(front: seq<Event>, v: word, n: nat): seq<Event>
    decreases n
  {
    if n == 0 then front + [Heading(v)] else ZeroRun(front, v, n - 1) + [ZeroPacket(n)]
  }

  /** Files of the given sizes behind `front`, each closed at once. */
  function Announcing(front: seq<Event>, sizes: seq<int>): seq<Event>
    decreases |sizes|
  {
    if sizes == [] then front
    else Announcing(front, sizes[..|sizes| - 1]) + [Heading(ToU32(sizes[|sizes| - 1]))] + [Eot()]
  }

  lemma HeadingNames(v: word)
    ensures |Digits(v)| <= 10 && Names(Payload(Heading(v)), [0x41], v)
  {
    var text := [0x41, 0] + Digits(v) + [SPACE];
    assert |Digits(v)| <= 10 by { SizeRoundTrip(v, Zeros(FILE_SIZE_LENGTH + 1), 0); }
    hide Digits;
    var e, payload := Heading(v), text + Zeros(PACKET_BUFFER);
    assert Payload(e) == payload[..PACKET_SIZE];
    assert payload[..PACKET_SIZE][..|text|] == text;
    assert [0x41] + [0] + Digits(v) + [SPACE] == text;
  }

  /** An `int32_t` that the header test lets through. */
  predicate Passes(size: int) { -0x8000_0000 <= size <= FLASH_SIZE - 1 }

  lemma Unsigned(size: int)
    requires Passes(size)
    ensures ToI32(ToU32(size)) == size
  {
  }

  // ---------------------------------------------------------------------------------------------
  // Single packets

  /** The session is between files. */
  ghost predicate Between(t: State, h: History) {
    t.result.None? && t.packets == 0 && !h.open
  }

  /** A filename packet between files is taken. */
  lemma HeadingTaken(hw: Hardware, s: State, h: History, v: word)
    requires Shaped(s) && Between(s, h) && Ordered(s, h) && ToI32(v) <= FLASH_SIZE - 1
    ensures var e := Heading(v);
            var t := Step(hw, s, e);
            var g := Observe(s, e, t, h);
            && InSequence(s, e) && t.result.None? && t.packets == 1 && t.dest == s.dest && t.size == ToI32(v)
            && g.open && |g.taken| == 1 && g.broken == h.broken && g.sizes == h.sizes + [ToI32(v)] && s.ops <= t.ops
  {
    hide Step, Heading, Observe, Names;
    var e := Heading(v);
    HeadingNames(v);
    HeaderSize(hw, s, e, [0x41], v);
    NewFile(hw, s, e, h);
    HeaderLog(hw, s, e);
  }

  lemma HeaderLog(hw: Hardware, s: State, e: Event)
    requires Shaped(s) && s.result.None? && Genuine(e) && e.packet.Data? && InSequence(s, e) && s.packets == 0
    ensures s.ops <= Step(hw, s, e).ops
  {
    hide Erased, Pages, Converted, NameText, FieldText;
    var g := Headed(s.(errors := 0), e.buf);
    ErasedList(hw, g, 0, Pages(g.size));
  }

  lemma EotTaken(hw: Hardware, s: State, h: History)
    requires Shaped(s) && s.result.None?
    ensures var e := Eot();
            var t := Step(hw, s, e);
            var g := Observe(s, e, t, h);
            && Between(t, g) && t.dest == s.dest && t.complete == s.complete && t.size == s.size
            && t.flash == s.flash && t.ops == s.ops
            && g.taken == h.taken && g.base == h.base && g.sizes == h.sizes && g.broken == h.broken
  {
    hide AcceptHeader, AcceptData;
  }

  lemma ZeroWord(bytes: seq<byte>, i: nat)
    requires i + 4 <= |bytes| && forall k :: i <= k < i + 4 ==> bytes[k] == 0
    ensures WordAt(bytes, i) == 0
  {
  }

  /** A size for which the guard admits every aligned word below `top`. */
  predicate Fills(size: int, top: nat) { top % 4 == 0 && top <= 0x1_0000_0000 && Limit(size) > top - 4 }

  lemma ZeroStep(s: State)
    requires s.result.None?
    ensures var t := ProgramOne(Obliging(), s, 0);
            t.result.None? && t.dest == ToU32(s.dest + 4) && t.ram == s.ram && t.size == s.size
  {
  }

  lemma FillsAll(dest: nat, size: int, top: nat)
    requires Fills(size, top) && dest % 4 == 0 && dest + 4 <= top
    ensures dest < Limit(size)
  {
  }

  lemma SameWord(dest: word)
    ensures ToU32(dest + 0) == dest
  {
  }

  lemma Forth(dest: word, k: nat)
    requires dest % 4 == 0 && dest + 4 <= 0x1_0000_0000 && (dest + 4 == 0x1_0000_0000 ==> k == 0)
    ensures ToU32(ToU32(dest + 4) + k) == ToU32(dest + (k + 4)) && ToU32(dest + 4) % 4 == 0 && ToU32(dest) == dest
    ensures dest + 4 < 0x1_0000_0000 ==> ToU32(dest + 4) == dest + 4
  {
  }

  /** Zeros are programmed without a failure as long as the guard admits them. */
  lemma {:induction false} ZerosProgrammed(s: State, j: nat, n: nat, top: nat)
    requires |s.ram| == PACKET_1K_SIZE && j <= n <= PACKET_1K_SIZE && j % 4 == n % 4 == 0 && s.result.None?
    requires forall k :: 0 <= k < n ==> s.ram[k] == 0
    requires Fills(s.size, top) && s.dest % 4 == 0 && (j < n ==> s.dest + (n - j) <= top)
    ensures var r := Programmed(Obliging(), s, j, n); r.result.None? && r.dest == ToU32(s.dest + (n - j))
    decreases n - j
  {
    hide WordAt, ProgramOne, Limit, Fills, ToU32;
    assert ToU32(s.dest + 0) == s.dest by { SameWord(s.dest); }
    assert top <= 0x1_0000_0000 by { TopFits(s.size, top); }
    if j < n {
      ZeroWord(s.ram, j);
      ZeroStep(s);
      FillsAll(s.dest, s.size, top);
      Forth(s.dest, n - j - 4);
      ZerosProgrammed(ProgramOne(Obliging(), s, 0), j + 4, n, top);
    }
  }

  lemma TopFits(size: int, top: nat)
    requires Fills(size, top)
    ensures top <= 0x1_0000_0000
  {
  }

  lemma ZerosTaken(s: State, h: History, k: nat, top: nat)
    requires Shaped(s) && s.result.None? && s.packets == k > 0 && Ordered(s, h)
    requires Fills(s.size, top) && s.dest % 4 == 0 && s.dest + PACKET_1K_SIZE <= top
    ensures var e := ZeroPacket(k);
            var t := Step(Obliging(), s, e);
            var g := Observe(s, e, t, h);
            && InSequence(s, e) && t.result.None? && t.dest == ToU32(s.dest + PACKET_1K_SIZE) && t.packets == k + 1
            && t.size == s.size && t.complete == s.complete && s.ops <= t.ops
            && g.open && g.sizes == h.sizes
  {
    hide Step, Programmed, Fills, Observe, Limit;
    var e := ZeroPacket(k);
    DataStepIs(Obliging(), s, e);
    TakenObserved(Obliging(), s, e, h);
    OnlyBreaks(Obliging(), s, e);
    var c := Loaded(s, e);
    assert forall i :: 0 <= i < PACKET_1K_SIZE ==> c.ram[i] == c.ram[..PACKET_1K_SIZE][i] == 0;
    ZerosProgrammed(c, 0, PACKET_1K_SIZE, top);
    ProgrammedOps(Obliging(), c, 0, PACKET_1K_SIZE);
  }

  // ---------------------------------------------------------------------------------------------
  // Runs

  lemma NothingYet(hw: Hardware, s: State)
    requires Fresh(s)
    ensures AllGenuine([]) && Exec(hw, s, []) == s && Between(s, Log(hw, s, []))
    ensures Log(hw, s, []).sizes == [] && Log(hw, s, []).broken == []
  {
  }

  lemma OrderedAfter(hw: Hardware, s: State, es: seq<Event>)
    requires Fresh(s) && AllGenuine(es)
    ensures Ordered(Exec(hw, s, es), Log(hw, s, es))
  {
    hide Exec, Log, Balanced, Budgeted, Explained, Ordered;
    BooksHold(hw, s, es);
  }

  /** Where a run stands after a filename packet and `n` data packets behind `front`. */
  ghost predicate Filled(u: State, l: History, t: State, h: History, v: word, n: nat) {
    && t.result.None? && t.packets == n + 1 && t.dest == ToU32(u.dest + PACKET_1K_SIZE * n) && t.size == ToI32(v)
    && h.open && h.sizes == l.sizes + [ToI32(v)] && u.ops <= t.ops
  }

  lemma FilledMore(u: State, l: History, t: State, h: History, v: word, n: nat, top: nat)
    requires Shaped(t) && Filled(u, l, t, h, v, n) && Ordered(t, h) && Fills(ToI32(v), top)
    requires u.dest % 4 == 0 && u.dest + PACKET_1K_SIZE * (n + 1) <= top
    ensures var e := ZeroPacket(n + 1);
            var r := Step(Obliging(), t, e);
            Filled(u, l, r, Observe(t, e, r, h), v, n + 1) && t.ops <= r.ops
  {
    hide Step, Observe, Fills, Limit;
    TopFits(ToI32(v), top);
    assert t.dest == u.dest + PACKET_1K_SIZE * n;
    ZerosTaken(t, h, n + 1, top);
  }

  lemma {:induction false} ZeroRunFills(s: State, front: seq<Event>, v: word, n: nat, top: nat)
    requires Fresh(s) && AllGenuine(front) && Between(Exec(Obliging(), s, front), Log(Obliging(), s, front))
    requires ToI32(v) <= FLASH_SIZE - 1 && Fills(ToI32(v), top)
    requires var u := Exec(Obliging(), s, front); u.dest % 4 == 0 && (n > 0 ==> u.dest + PACKET_1K_SIZE * n <= top)
    ensures AllGenuine(ZeroRun(front, v, n))
    ensures var es := ZeroRun(front, v, n);
            Filled(Exec(Obliging(), s, front), Log(Obliging(), s, front), Exec(Obliging(), s, es), Log(Obliging(), s, es), v, n)
    decreases n
  {
    hide Exec, Log, Step, Observe, Fills, Heading, ZeroPacket, AllGenuine, Genuine, Ordered;
    var u, l := Exec(Obliging(), s, front), Log(Obliging(), s, front);
    if n == 0 {
      OrderedAfter(Obliging(), s, front);
      HeadingTaken(Obliging(), u, l, v);
      Extended(Obliging(), s, front, Heading(v));
    } else {
      var before := ZeroRun(front, v, n - 1);
      ZeroRunFills(s, front, v, n - 1, top);
      OrderedAfter(Obliging(), s, before);
      Extended(Obliging(), s, before, ZeroPacket(n));
      FilledMore(u, l, Exec(Obliging(), s, before), Log(Obliging(), s, before), v, n - 1, top);
    }
  }

  lemma {:induction false} AnnouncingPasses(hw: Hardware, s: State, front: seq<Event>, sizes: seq<int>)
    requires Fresh(s) && AllGenuine(front) && Between(Exec(hw, s, front), Log(hw, s, front))
    requires forall i :: 0 <= i < |sizes| ==> Passes(sizes[i])
    ensures AllGenuine(Announcing(front, sizes))
    ensures var u, t := Exec(hw, s, front), Exec(hw, s, Announcing(front, sizes));
            var h := Log(hw, s, Announcing(front, sizes));
            Between(t, h) && t.dest == u.dest && u.ops <= t.ops && h.sizes == Log(hw, s, front).sizes + sizes
    decreases |sizes|
  {
    hide Exec, Log, Step, Observe, Heading, Eot, AllGenuine, Genuine, Ordered, Between;
    if sizes == [] {
      assert Log(hw, s, front).sizes + sizes == Log(hw, s, front).sizes;
    } else {
      var k := |sizes| - 1;
      var es, size := Announcing(front, sizes[..k]), sizes[k];
      AnnouncingPasses(hw, s, front, sizes[..k]);
      Unsigned(size);
      OneMore(hw, s, es, size);
      assert Log(hw, s, front).sizes + sizes[..k] + [size] == Log(hw, s, front).sizes + sizes;
    }
  }

  /** One more file, closed at once. */
  lemma OneMore(hw: Hardware, s: State, es: seq<Event>, size: int)
    requires Fresh(s) && AllGenuine(es) && Between(Exec(hw, s, es), Log(hw, s, es)) && Passes(size)
    ensures AllGenuine(es + [Heading(ToU32(size))] + [Eot()])
    ensures var u, t := Exec(hw, s, es), Exec(hw, s, es + [Heading(ToU32(size))] + [Eot()]);
            var h := Log(hw, s, es + [Heading(ToU32(size))] + [Eot()]);
            Between(t, h) && t.dest == u.dest && u.ops <= t.ops && h.sizes == Log(hw, s, es).sizes + [size]
  {
    hide Exec, Log, Step, Observe, Heading, Eot, AllGenuine, Genuine, Ordered;
    Unsigned(size);
    var v := ToU32(size);
    OrderedAfter(hw, s, es);
    HeadingTaken(hw, Exec(hw, s, es), Log(hw, s, es), v);
    Extended(hw, s, es, Heading(v));
    var more := es + [Heading(v)];
    EotTaken(hw, Exec(hw, s, more), Log(hw, s, more));
    Extended(hw, s, more, Eot());
  }

  // ---------------------------------------------------------------------------------------------
  // Writes behind the region

  predicate Escapes(op: FlashOp) {
    op.Program? && op.addr == APPLICATION_ADDRESS + FLASH_SIZE
  }

  lemma UntameFills(size: int)
    requires Passes(size) && !Tame(size)
    ensures Fills(size, APPLICATION_ADDRESS + FLASH_SIZE + PACKET_1K_SIZE)
  {
  }

  /** The packet that follows when the region is full. */
  lemma WriteBehind(s: State, front: seq<Event>, size: int, n: nat)
    requires Fresh(s) && AllGenuine(front) && Between(Exec(Obliging(), s, front), Log(Obliging(), s, front))
    requires Exec(Obliging(), s, front).dest == APPLICATION_ADDRESS && Passes(size) && !Tame(size)
    requires PACKET_1K_SIZE * n == FLASH_SIZE
    ensures var es := ZeroRun(front, ToU32(size), n + 1);
            && AllGenuine(es) && Exec(Obliging(), s, es).result.None?
            && Log(Obliging(), s, es).sizes == Log(Obliging(), s, front).sizes + [size]
            && exists j :: 0 <= j < |Exec(Obliging(), s, es).ops| && Escapes(Exec(Obliging(), s, es).ops[j])
  {
    hide Exec, Log, Step, Observe, Fills, Tame, AllGenuine, Genuine, Ordered, ZeroPacket, Between;
    var v, top := ToU32(size), APPLICATION_ADDRESS + FLASH_SIZE + PACKET_1K_SIZE;
    Unsigned(size);
    UntameFills(size);
    ZeroRunFills(s, front, v, n, top);
    ZeroRunFills(s, front, v, n + 1, top);
    var full, e := ZeroRun(front, v, n), ZeroPacket(n + 1);
    var t, h := Exec(Obliging(), s, full), Log(Obliging(), s, full);
    Extended(Obliging(), s, full, e);
    OrderedAfter(Obliging(), s, full);
    ZerosTaken(t, h, n + 1, top);
    EscapesIffUntame(Obliging(), t, e);
    assert Escapes(Exec(Obliging(), s, full + [e]).ops[|t.ops|]);
  }

  /** For every list of sizes that pass the header test, one of which is not tame, there is a session that
      announces exactly these and programs the word behind the region. */
  lemma EscapeReachable(s: State, sizes: seq<int>, i: nat) returns (es: seq<Event>)
    requires Fresh(s) && i < |sizes| && !Tame(sizes[i]) && forall k :: 0 <= k < |sizes| ==> Passes(sizes[k])
    ensures AllGenuine(es) && Log(Obliging(), s, es).sizes == sizes
    ensures exists j :: 0 <= j < |Exec(Obliging(), s, es).ops| && Escapes(Exec(Obliging(), s, es).ops[j])
  {
    hide Exec, Log, Step, Observe, Tame, AllGenuine, Genuine, Eot, Announcing, ZeroRun;
    NothingYet(Obliging(), s);
    AnnouncingPasses(Obliging(), s, [], sizes[..i]);
    var front := Announcing([], sizes[..i]);
    var n := FLASH_SIZE / PACKET_1K_SIZE;
    WriteBehind(s, front, sizes[i], n);
    var full := ZeroRun(front, ToU32(sizes[i]), n + 1);
    EotTaken(Obliging(), Exec(Obliging(), s, full), Log(Obliging(), s, full));
    Extended(Obliging(), s, full, Eot());
    es := Announcing(full + [Eot()], sizes[i + 1..]);
    AnnouncingPasses(Obliging(), s, full + [Eot()], sizes[i + 1..]);
    assert [] + sizes[..i] + [sizes[i]] + sizes[i + 1..] == sizes;
    var ops, all := Exec(Obliging(), s, full).ops, Exec(Obliging(), s, es).ops;
    var j :| 0 <= j < |ops| && Escapes(ops[j]);
    assert all[j] == ops[j];
  }

  /** Range and write-once hold of every session that announces given sizes exactly when they are all tame. */
  lemma RangeIffTame(s: State, sizes: seq<int>)
    requires Fresh(s) && forall k :: 0 <= k < |sizes| ==> Passes(sizes[k])
    ensures (forall hw: Hardware, es: seq<Event> :: AllGenuine(es) && Log(hw, s, es).sizes == sizes ==>
               WrittenOnce(Exec(hw, s, es).ops))
            <==> AllTame(sizes)
  {
    hide Exec, Log, Tame;
    if AllTame(sizes) {
      forall hw: Hardware, es: seq<Event> | AllGenuine(es) && Log(hw, s, es).sizes == sizes
        ensures WrittenOnce(Exec(hw, s, es).ops)
      {
        BatchHolds(hw, s, es);
      }
    } else {
      var i :| 0 <= i < |sizes| && !Tame(sizes[i]);
      var es := EscapeReachable(s, sizes, i);
      assert !WrittenOnce(Exec(Obliging(), s, es).ops);
    }
  }

  // ---------------------------------------------------------------------------------------------
  // The destination moves back

  lemma BrimsFills(size: int)
    requires Passes(size) && Brims(size)
    ensures Fills(size, 0x1_0000_0000)
  {
  }

  /** A file of zeros up to the end of the address space. */
  lemma TurnsBack(s: State, size: int, n: nat) returns (es: seq<Event>)
    requires Fresh(s) && Passes(size) && Brims(size)
    requires n > 0 && APPLICATION_ADDRESS + PACKET_1K_SIZE * n == 0x1_0000_0000
    ensures AllGenuine(es) && es != [] && Log(Obliging(), s, es).sizes == [size]
    ensures Exec(Obliging(), s, es).dest == 0 < Exec(Obliging(), s, es[..|es| - 1]).dest
  {
    hide Exec, Log, Fills, Brims, AllGenuine, Genuine, ZeroPacket, Heading;
    var v := ToU32(size);
    Unsigned(size);
    BrimsFills(size);
    NothingYet(Obliging(), s);
    ZeroRunFills(s, [], v, n - 1, 0x1_0000_0000);
    ZeroRunFills(s, [], v, n, 0x1_0000_0000);
    es := ZeroRun([], v, n);
    assert es[..|es| - 1] == ZeroRun([], v, n - 1);
  }

  /** In every run of one file of `size` bytes no packet moves the destination back, exactly when the size does
      not brim. */
  lemma NeverBackIff(s: State, size: int)
    requires Fresh(s) && Passes(size)
    ensures (forall hw: Hardware, es: seq<Event> :: AllGenuine(es) && es != [] && Log(hw, s, es).sizes == [size] ==>
               Exec(hw, s, es[..|es| - 1]).dest <= Exec(hw, s, es).dest)
            <==> !Brims(size)
  {
    hide Exec, Log, Brims;
    if Brims(size) {
      var es := TurnsBack(s, size, (0x1_0000_0000 - APPLICATION_ADDRESS) / PACKET_1K_SIZE);
    } else {
      forall hw: Hardware, es: seq<Event> | AllGenuine(es) && es != [] && Log(hw, s, es).sizes == [size]
        ensures Exec(hw, s, es[..|es| - 1]).dest <= Exec(hw, s, es).dest
      {
        NeverBack(hw, s, es);
      }
    }
  }

  // ---------------------------------------------------------------------------------------------
  // Erases behind the region and of the file before

  /** With this device FLASHStatus stays COMPLETE. */
  lemma {:induction false} ObligingCompletes(s: State, i: nat, n: nat)
    requires s.complete
    ensures Erased(Obliging(), s, i, n).complete
    decreases n - i
  {
    if i < n {
      var page := ToU32(s.dest + PAGE_SIZE * i);
      ObligingCompletes(s.(complete := true, flash := AfterErase(Obliging(), s.flash, |s.ops|, page),
                           ops := s.ops + [Erase(page, true)]), i + 1, n);
    }
  }

  lemma CompleteStep(s: State, e: Event)
    requires Shaped(s) && s.result.None? && s.complete && Genuine(e)
    ensures Step(Obliging(), s, e).complete
  {
    if e.packet.Data? && InSequence(s, e) {
      if s.packets == 0 {
        HeaderCompletes(s, e);
      } else {
        hide Step;
        OnlyBreaks(Obliging(), s, e);
      }
    } else {
      hide AcceptHeader, AcceptData;
    }
  }

  lemma HeaderCompletes(s: State, e: Event)
    requires Shaped(s) && s.result.None? && s.complete && Genuine(e) && e.packet.Data? && InSequence(s, e) && s.packets == 0
    ensures Step(Obliging(), s, e).complete
  {
    hide Erased, Pages, Converted, NameText, FieldText;
    var g := Headed(s.(errors := 0), e.buf);
    ObligingCompletes(g, 0, Pages(g.size));
  }

  lemma {:induction false} CompleteStays(s: State, es: seq<Event>)
    requires Shaped(s) && s.complete && AllGenuine(es)
    ensures Exec(Obliging(), s, es).complete
    decreases |es|
  {
    hide Step;
    if es != [] {
      var front := es[..|es| - 1];
      CompleteStays(s, front);
      if Exec(Obliging(), s, front).result.None? {
        CompleteStep(Exec(Obliging(), s, front), es[|es| - 1]);
      }
    }
  }

  lemma FullFills()
    ensures Fills(FLASH_SIZE - 1, APPLICATION_ADDRESS + FLASH_SIZE) && Passes(FLASH_SIZE - 1)
    ensures ToI32(ToU32(FLASH_SIZE - 1)) == FLASH_SIZE - 1
  {
  }

  /** A file of FLASH_SIZE - 1 bytes of which `n` packets came, its EOT, and the filename packet of a file of one
      byte. */
  function TwoFiles(n: nat): seq<Event> {
    ZeroRun([], FLASH_SIZE - 1, n) + [Eot()] + [Heading(1)]
  }

  /** The state before the second filename packet, and the step that this one makes. */
  lemma SecondFile(s: State, n: nat)
    requires Fresh(s) && s.complete && PACKET_1K_SIZE * n <= FLASH_SIZE
    ensures var front, es := ZeroRun([], FLASH_SIZE - 1, n) + [Eot()], TwoFiles(n);
            && AllGenuine(es) && AllGenuine(front) && AllGenuine(ZeroRun([], FLASH_SIZE - 1, n))
            && Log(Obliging(), s, es).sizes == [FLASH_SIZE - 1, 1]
            && (var u, t := Exec(Obliging(), s, front), Exec(Obliging(), s, es);
                && Shaped(u) && u.result.None? && u.packets == 0 && u.complete && u.dest == APPLICATION_ADDRESS + PACKET_1K_SIZE * n
                && u.flash == Exec(Obliging(), s, ZeroRun([], FLASH_SIZE - 1, n)).flash
                && InSequence(u, Heading(1)) && t == Step(Obliging(), u, Heading(1)) && t.result.None? && t.size == 1 && t.complete)
  {
    hide Exec, Log, Step, Observe, Fills, AllGenuine, Genuine, Ordered, Eot, Heading, ZeroPacket, ZeroRun;
    FullFills();
    NothingYet(Obliging(), s);
    ZeroRunFills(s, [], FLASH_SIZE - 1, n, APPLICATION_ADDRESS + FLASH_SIZE);
    var run := ZeroRun([], FLASH_SIZE - 1, n);
    EotTaken(Obliging(), Exec(Obliging(), s, run), Log(Obliging(), s, run));
    Extended(Obliging(), s, run, Eot());
    var front := run + [Eot()];
    OrderedAfter(Obliging(), s, front);
    CompleteStays(s, front);
    HeadingTaken(Obliging(), Exec(Obliging(), s, front), Log(Obliging(), s, front), 1);
    Extended(Obliging(), s, front, Heading(1));
    CompleteStays(s, front + [Heading(1)]);
  }

  /** A session that fills the region with its first file, whose second filename packet announces one byte:
      both sizes are fine, and the page behind the region is erased. */
  lemma NextFileErasesPastRegion(s: State) returns (es: seq<Event>)
    requires Fresh(s) && s.complete
    ensures AllGenuine(es) && Log(Obliging(), s, es).sizes == [FLASH_SIZE - 1, 1]
    ensures exists j :: 0 <= j < |Exec(Obliging(), s, es).ops| && ErasesAt(Exec(Obliging(), s, es).ops[j], REGION_END)
  {
    hide Exec, Log, Step, Observe, Heading, ZeroRun;
    var n := FLASH_SIZE / PACKET_1K_SIZE;
    SecondFile(s, n);
    es := TwoFiles(n);
    HeadingErases(Obliging(), Exec(Obliging(), s, ZeroRun([], FLASH_SIZE - 1, n) + [Eot()]), Heading(1));
  }

  /** The first erase of a filename packet is of the destination's page. */
  lemma HeadingErases(hw: Hardware, s: State, e: Event)
    requires Shaped(s) && s.result.None? && Genuine(e) && e.packet.Data? && InSequence(s, e) && s.packets == 0 && s.complete
    requires var t := Step(hw, s, e); t.result.None? && t.size == 1 && t.complete
    ensures var t := Step(hw, s, e); |s.ops| < |t.ops| && ErasesAt(t.ops[|s.ops|], s.dest)
  {
    hide Erased, Converted, NameText, FieldText;
    var g := Headed(s.(errors := 0), e.buf);
    ErasedList(hw, g, 0, Pages(g.size));
  }

  /** A session of which the first file's first word is programmed, and lost when the second filename packet
      comes. */
  lemma NextFileLosesWord(s: State) returns (front: seq<Event>, es: seq<Event>)
    requires Fresh(s) && s.complete && APPLICATION_ADDRESS in s.flash
    ensures AllGenuine(front) && AllGenuine(es) && front <= es && Log(Obliging(), s, es).sizes == [FLASH_SIZE - 1, 1]
    ensures var t, u := Exec(Obliging(), s, front), Exec(Obliging(), s, es);
            && APPLICATION_ADDRESS in t.flash && t.flash[APPLICATION_ADDRESS] == 0
            && APPLICATION_ADDRESS in u.flash && u.flash[APPLICATION_ADDRESS] == ERASED
  {
    hide Exec, Log, Step, Observe, Heading, ZeroRun, Genuine;
    front := ZeroRun([], FLASH_SIZE - 1, 1);
    es := TwoFiles(1);
    SecondFile(s, 1);
    FirstWordZero(s);
    NextFileErasesTail(Obliging(), Exec(Obliging(), s, front + [Eot()]), Heading(1), APPLICATION_ADDRESS);
    assert front <= front + [Eot()] <= es;
  }

  lemma KeysStep(hw: Hardware, s: State, e: Event)
    requires Shaped(s) && s.result.None? && Genuine(e)
    ensures Step(hw, s, e).flash.Keys == s.flash.Keys
  {
    hide Step, Programmed;
    if e.packet.Data? && InSequence(s, e) {
      if s.packets == 0 {
        HeaderKeys(hw, s, e);
      } else {
        DataStepIs(hw, s, e);
      }
    } else {
      IdleEffect(hw, s, e);
    }
  }

  lemma HeaderKeys(hw: Hardware, s: State, e: Event)
    requires Shaped(s) && s.result.None? && Genuine(e) && e.packet.Data? && InSequence(s, e) && s.packets == 0
    ensures Step(hw, s, e).flash.Keys == s.flash.Keys
  {
    hide Erased, Pages, Converted, NameText, FieldText;
  }

  lemma {:induction false} SameKeys(hw: Hardware, s: State, es: seq<Event>)
    requires Shaped(s) && AllGenuine(es)
    ensures Exec(hw, s, es).flash.Keys == s.flash.Keys
    decreases |es|
  {
    hide Step;
    if es != [] {
      var front := es[..|es| - 1];
      SameKeys(hw, s, front);
      if Exec(hw, s, front).result.None? {
        KeysStep(hw, Exec(hw, s, front), es[|es| - 1]);
      }
    }
  }

  /** After one data packet of zeros the application's first word is zero. */
  lemma FirstWordZero(s: State)
    requires Fresh(s) && APPLICATION_ADDRESS in s.flash && AllGenuine(ZeroRun([], FLASH_SIZE - 1, 1))
    ensures var t := Exec(Obliging(), s, ZeroRun([], FLASH_SIZE - 1, 1));
            APPLICATION_ADDRESS in t.flash && t.flash[APPLICATION_ADDRESS] == 0
  {
    hide Exec, Log, Step, Observe, Fills, Genuine, Heading, ZeroPacket, Room;
    var e := ZeroPacket(1);
    FullFills();
    NothingYet(Obliging(), s);
    ZeroRunFills(s, [], FLASH_SIZE - 1, 0, APPLICATION_ADDRESS + FLASH_SIZE);
    var front := ZeroRun([], FLASH_SIZE - 1, 0);
    assert ZeroRun([], FLASH_SIZE - 1, 1) == front + [e];
    Extended(Obliging(), s, front, e);
    SameKeys(Obliging(), s, front);
    var u := Exec(Obliging(), s, front);
    OrderedAfter(Obliging(), s, front);
    ZerosTaken(u, Log(Obliging(), s, front), 1, APPLICATION_ADDRESS + FLASH_SIZE);
    TakenData(Obliging(), u, e);
    BurnsFirst(u, Step(Obliging(), u, e), Zeros(PACKET_1K_SIZE));
  }

  lemma BurnsFirst(s: State, t: State, data: seq<byte>)
    requires s.dest == APPLICATION_ADDRESS && s.dest in s.flash && s.size == FLASH_SIZE - 1
    requires |data| == PACKET_1K_SIZE && forall i :: 0 <= i < |data| ==> data[i] == 0
    requires Wrote(s, t, data[..Min(|data|, Room(s.dest, s.size))])
    ensures APPLICATION_ADDRESS in t.flash && t.flash[APPLICATION_ADDRESS] == 0
  {
    hide WordAt;
    var k := Min(|data|, Room(s.dest, s.size));
    assert k == PACKET_1K_SIZE && Covered(APPLICATION_ADDRESS, s.dest, k);
    ZeroWord(data[..k], 0);
  }

  // ---------------------------------------------------------------------------------------------
  // A size that did not come

  /** A filename packet, an EOT and the empty filename packet: whatever the device does, the receiver returns the
      announced size, and nothing came. */
  lemma ReturnsWithoutData(hw: Hardware, s: State, v: word) returns (es: seq<Event>)
    requires Fresh(s) && 0 < v <= FLASH_SIZE - 1
    ensures AllGenuine(es) && Exec(hw, s, es).result == Some(v) && Log(hw, s, es).sizes == [v]
    ensures Content(Log(hw, s, es)) == [] && Exec(hw, s, es).dest == APPLICATION_ADDRESS
  {
    hide Exec, Log, Step, Observe, Heading, Closing, Eot, AllGenuine, Genuine, Ordered;
    NothingYet(hw, s);
    OrderedAfter(hw, s, []);
    HeadingTaken(hw, s, Log(hw, s, []), v);
    Extended(hw, s, [], Heading(v));
    var one := [] + [Heading(v)];
    EotTaken(hw, Exec(hw, s, one), Log(hw, s, one));
    Extended(hw, s, one, Eot());
    var two := one + [Eot()];
    ClosingTaken(hw, Exec(hw, s, two), Log(hw, s, two));
    Extended(hw, s, two, Closing());
    es := two + [Closing()];
  }

  lemma ClosingTaken(hw: Hardware, s: State, h: History)
    requires Shaped(s) && Between(s, h)
    ensures var e := Closing();
            var t := Step(hw, s, e);
            var g := Observe(s, e, t, h);
            && t.result == Some(s.size) && t.size == s.size && t.flash == s.flash && t.dest == s.dest && t.ops == s.ops
            && g.taken == h.taken && g.sizes == h.sizes && g.broken == h.broken
  {
    hide AcceptData;
  }
}
