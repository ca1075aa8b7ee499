/** The image of a file in every reachable state of a session. */
module FileImage {
  import opened Machine
  import opened Framing
  import opened Header
  import opened Flash
  import opened Session
  import opened Ledger
  import opened Image

  /** The payloads of a sequence of packets, joined. */
  function Joined(ps: seq<Taken>): seq<byte> {
    if ps == [] then [] else Joined(ps[..|ps| - 1]) + ps[|ps| - 1].payload
  }

  /** What the data packets of the latest file carried so far, the one that ended the session included. */
  function Content(h: History): seq<byte> {
    (if h.taken == [] then [] else Joined(h.taken[1..])) + h.broken
  }

  /** The part of the content that belongs in flash: cut to the size rounded up to a word. */
  function Stored4(h: History): seq<byte> {
    Content(h)[..Min(|Content(h)|, Room(h.base.dest, h.base.size))]
  }

  ghost predicate AllTame(sizes: seq<int>) {
    forall i :: 0 <= i < |sizes| ==> Tame(sizes[i])
  }

  ghost predicate Whole(h: History) {
    |Content(h)| % 4 == 0
  }

  /** From `b` to `s` the content of the file of `h` was stored: all of it that has room, or, once a
      word failed to verify, all of it up to that word. */
  ghost predicate Kept(b: State, s: State, h: History) {
    if h.broken == [] then Wrote(b, s, Stored4(h))
    else
      && b.dest <= s.dest && s.dest - b.dest + 4 <= |Stored4(h)|
      && Broke(b, s, Content(h)[..s.dest - b.dest + 4])
  }

  /** The image of the latest file, before and after its EOT: flash is what it was after the filename packet,
      with the file's content burnt in from the destination of that moment; the operations since are exactly
      the writes of that content. A word that failed to verify, which ends the session, is the last one
      written, and the only one that is not as it should be. The size is the one announced for that file,
      unless a filename packet was refused. */
  ghost predicate Imaged(s: State, h: History) {
    && Whole(h) && (s.result.None? || !h.open ==> h.broken == [])
    && (h.open ==> (h.broken != [] <==> s.result == Some(-2)))
    && (s.size < FLASH_SIZE ==> s.size == if h.taken == [] then 0 else h.base.size)
    && (s.size >= FLASH_SIZE ==> s.result == Some(-1) && !h.open)
    && (h.taken != [] ==> h.sizes != [] && h.sizes[|h.sizes| - 1] == h.base.size)
    && (AllTame(h.sizes) ==>
          && InRegion(s.dest)
          && (h.taken != [] ==> InRegion(h.base.dest) && Tame(h.base.size) && Kept(h.base, s, h)))
  }

  lemma RoomAfter(dest: nat, size: int, n: nat)
    requires n % 4 == 0 && n <= Room(dest, size)
    ensures Room(dest + n, size) == Room(dest, size) - n
  {
  }

  lemma SameFile(h: History, g: History)
    requires h.taken == g.taken && h.base == g.base && h.broken == g.broken
    ensures Content(h) == Content(g) && Stored4(h) == Stored4(g)
  {
  }

  lemma ContentGrows(h: History, p: Taken)
    requires h.taken != [] && h.broken == []
    ensures Content(h.(taken := h.taken + [p])) == Content(h) + p.payload
    ensures Content(h.(broken := p.payload)) == Content(h) + p.payload
  {
    var ps := h.taken[1..];
    assert (h.taken + [p])[1..] == ps + [p];
    assert (ps + [p])[..|ps|] == ps;
  }

  /** Of a file, the state's destination, size and log are the same, and flash is. */
  lemma KeptSame(b: State, s: State, t: State, h: History, g: History)
    requires Kept(b, s, h) && g.taken == h.taken && g.base == h.base && g.broken == h.broken
    requires t.dest == s.dest && t.flash == s.flash && t.ops == s.ops
    ensures Kept(b, t, g)
  {
    hide Content, Room, Burn, Writes;
    SameFile(h, g);
  }

  function Entry(e: Event): Taken
    requires Genuine(e) && e.packet.Data?
  {
    Taken(e.buf[PACKET_SEQNO_INDEX], Payload(e))
  }

  /** What packets that leave flash alone do. */
  lemma IdleEffect(hw: Hardware, s: State, e: Event)
    requires Shaped(s) && s.result.None? && Genuine(e) && (e.packet.Data? ==> !InSequence(s, e))
    ensures var t := Step(hw, s, e);
            && t.dest == s.dest && t.flash == s.flash && t.ops == s.ops && t.size == s.size && t.complete == s.complete
            && t.result != Some(-2) && t.result != Some(-1)
  {
    hide AcceptHeader, AcceptData, Erased, Programmed;
  }

  lemma IdleHistory(s: State, e: Event, t: State, h: History)
    requires Genuine(e) && (e.packet.Data? ==> !InSequence(s, e))
    ensures var g := Observe(s, e, t, h);
            && g.base == h.base && g.broken == h.broken && g.sizes == h.sizes && g.taken == h.taken && (g.open ==> h.open)
            && g.done == (if h.open && !g.open then h.done + [File(h.taken, h.base)] else h.done)
  {
    hide Payload;
  }

  /** Packets that leave flash alone. */
  lemma IdleStep(hw: Hardware, s: State, e: Event, h: History)
    requires Shaped(s) && s.result.None? && Genuine(e) && Ordered(s, h) && Imaged(s, h)
    requires e.packet.Data? ==> !InSequence(s, e)
    ensures Imaged(Step(hw, s, e), Observe(s, e, Step(hw, s, e), h))
  {
    hide Step, Observe, Joined, Kept, InRegion, Tame;
    IdleEffect(hw, s, e);
    var t := Step(hw, s, e);
    IdleHistory(s, e, t, h);
    var g := Observe(s, e, t, h);
    if AllTame(h.sizes) && h.taken != [] {
      KeptSame(h.base, s, t, h, g);
    }
  }

  lemma NoFileEffect(hw: Hardware, s: State, e: Event)
    requires Shaped(s) && s.result.None? && Genuine(e) && e.packet.Data? && InSequence(s, e) && s.packets == 0
    requires Step(hw, s, e).result.Some?
    ensures var t := Step(hw, s, e);
            && t.dest == s.dest && t.flash == s.flash && t.ops == s.ops && t.complete == s.complete
            && (t.size == s.size || (t.size >= FLASH_SIZE && t.result == Some(-1)))
  {
    hide AcceptData, Converted, NameText, FieldText, Erased, Pages;
  }

  /** A filename packet that ends the session, or is refused, leaves flash alone as well. */
  lemma NoFile(hw: Hardware, s: State, e: Event, h: History)
    requires Shaped(s) && s.result.None? && Genuine(e) && Ordered(s, h) && e.packet.Data? && InSequence(s, e) && s.packets == 0
    requires Step(hw, s, e).result.Some?
    ensures var t := Step(hw, s, e);
            var g := Observe(s, e, t, h);
            && t.dest == s.dest && t.flash == s.flash && t.ops == s.ops && t.complete == s.complete
            && (t.size == s.size || (t.size >= FLASH_SIZE && t.result == Some(-1)))
            && g.base == h.base && g.broken == h.broken && g.sizes == h.sizes && g.taken == h.taken && !g.open && !h.open
  {
    hide Step, Payload, Numbered;
    NoFileEffect(hw, s, e);
  }

  /** A filename packet that is taken starts a file. */
  lemma NewFile(hw: Hardware, s: State, e: Event, h: History)
    requires Shaped(s) && s.result.None? && Genuine(e) && Ordered(s, h) && e.packet.Data? && InSequence(s, e) && s.packets == 0
    requires Step(hw, s, e).result.None?
    ensures var t := Step(hw, s, e);
            var g := Observe(s, e, t, h);
            && !h.open && g.open && t.dest == s.dest && g.base == t && g.taken == [Entry(e)] && g.sizes == h.sizes + [t.size]
            && g.broken == h.broken && g.done == h.done && g.files == h.files && t.size < FLASH_SIZE
  {
    hide AcceptData, Converted, NameText, FieldText, Erased, Pages;
  }

  lemma LastTame(sizes: seq<int>, size: int)
    ensures AllTame(sizes + [size]) <==> AllTame(sizes) && Tame(size)
  {
    if AllTame(sizes + [size]) {
      assert (sizes + [size])[|sizes|] == size;
      assert forall i :: 0 <= i < |sizes| ==> (sizes + [size])[i] == sizes[i];
    }
  }

  lemma HeaderStep(hw: Hardware, s: State, e: Event, h: History)
    requires Shaped(s) && s.result.None? && Genuine(e) && Ordered(s, h) && Imaged(s, h)
    requires e.packet.Data? && InSequence(s, e) && s.packets == 0
    ensures Imaged(Step(hw, s, e), Observe(s, e, Step(hw, s, e), h))
  {
    hide Step, Observe, Kept, Tame, AllTame;
    var t := Step(hw, s, e);
    var g := Observe(s, e, t, h);
    if t.result.Some? {
      NoFile(hw, s, e, h);
      SameFile(h, g);
      if AllTame(h.sizes) && h.taken != [] {
        KeptSame(h.base, s, t, h, g);
      }
    } else {
      NewFile(hw, s, e, h);
      LastTame(h.sizes, t.size);
      if AllTame(g.sizes) {
        NothingKept(t, g);
      }
    }
  }

  lemma NothingKept(t: State, g: History)
    requires |g.taken| == 1 && g.broken == [] && InRegion(t.dest)
    ensures Kept(t, t, g)
  {
    hide Burn, Writes, Room;
    BurnNone(t.flash, t.dest);
    assert Content(g) == [];
  }

  /** The part that a data packet adds to the stored content. */
  lemma StoredGrows(h: History, p: Taken, k: nat)
    requires h.taken != [] && h.broken == [] && Whole(h) && |p.payload| % 4 == 0
    requires k == Min(|p.payload|, Room(h.base.dest + |Stored4(h)|, h.base.size))
    ensures Stored4(h.(taken := h.taken + [p])) == Stored4(h) + p.payload[..k]
    ensures |Stored4(h)| % 4 == 0
  {
    ContentGrows(h, p);
    var c, room := Content(h), Room(h.base.dest, h.base.size);
    RoomAfter(h.base.dest, h.base.size, |Stored4(h)|);
    hide Content, Room;
    assert (c + p.payload)[..Min(|c| + |p.payload|, room)] == c[..Min(|c|, room)] + p.payload[..k];
  }

  /** The receiver with a data packet's payload in its RAM buffer. */
  function Loaded(s: State, e: Event): (r: State)
    requires Shaped(s) && Genuine(e) && e.packet.Data?
    ensures Shaped(r) && r.ram[..e.packet.length] == Payload(e)
  {
    s.(errors := 0, ram := Payload(e) + s.ram[e.packet.length..])
  }

  lemma DataStepIs(hw: Hardware, s: State, e: Event)
    requires Shaped(s) && s.result.None? && Genuine(e) && e.packet.Data?
    requires InSequence(s, e) && s.packets != 0
    ensures var p := Programmed(hw, Loaded(s, e), 0, e.packet.length);
            Step(hw, s, e) == if p.result.Some? then p
                              else Reply(p, [ACK]).(packets := s.packets + 1, begun := true)
  {
    hide Programmed, AcceptHeader;
  }

  lemma RoomInRegion(dest: nat, size: int)
    requires InRegion(dest) && Tame(size)
    ensures Room(dest, size) % 4 == 0 && dest + Room(dest, size) <= APPLICATION_ADDRESS + FLASH_SIZE
  {
  }

  lemma BrokeAt(s: State, t: State, data: seq<byte>)
    requires Broke(s, t, data)
    ensures t.dest == s.dest + |data| - 4 && |data| % 4 == 0
  {
  }

  lemma PackedRegion(s: State, r: State, j: nat, n: nat)
    requires j <= n <= |s.ram| && j % 4 == n % 4 == 0 && Packed(s, r, j, n) && InRegion(s.dest) && Tame(s.size)
    ensures InRegion(r.dest)
  {
    hide Wrote, Broke, Room, Tame, InRegion;
    RoomInRegion(s.dest, s.size);
    var k := if r.result.None? then Fitting(s.dest, s.size, j, n) else r.dest - s.dest + 4;
    if r.result.None? {
      WroteTo(s, r, s.ram[j..j + k]);
      RegionMore(s.dest, k, Room(s.dest, s.size));
    } else {
      BrokeAt(s, r, s.ram[j..j + k]);
      RegionMore(s.dest, k - 4, Room(s.dest, s.size));
    }
  }

  lemma RegionMore(dest: nat, k: nat, room: nat)
    requires InRegion(dest) && k % 4 == 0 && k <= room && dest + room <= APPLICATION_ADDRESS + FLASH_SIZE
    ensures InRegion(dest + k)
  {
  }

  /** Writing looks at nothing but destination, flash and log. */
  lemma SameWrites(c: State, p: State, s: State, t: State, data: seq<byte>)
    requires c.dest == s.dest && c.flash == s.flash && c.ops == s.ops
    requires p.dest == t.dest && p.flash == t.flash && p.ops == t.ops
    ensures Wrote(c, p, data) ==> Wrote(s, t, data)
    ensures Broke(c, p, data) ==> Broke(s, t, data)
  {
  }

  /** A data packet in sequence ends a session only by a failed verification. */
  lemma OnlyBreaks(hw: Hardware, s: State, e: Event)
    requires Shaped(s) && s.result.None? && Genuine(e) && e.packet.Data? && InSequence(s, e) && s.packets != 0
    ensures var t := Step(hw, s, e);
            (t.result.None? || t.result == Some(-2)) && t.size == s.size && t.complete == s.complete
  {
    hide Step, Programmed;
    DataStepIs(hw, s, e);
  }

  /** A data packet in sequence: what it adds to flash, up to a word that fails to verify. */
  lemma TakenData(hw: Hardware, s: State, e: Event)
    requires Shaped(s) && s.result.None? && Genuine(e) && e.packet.Data? && Tame(s.size) && InRegion(s.dest)
    requires InSequence(s, e) && s.packets != 0
    ensures var t, k := Step(hw, s, e), Min(e.packet.length, Room(s.dest, s.size));
            && t.size == s.size && InRegion(t.dest)
            && (t.result.None? ==> Wrote(s, t, Payload(e)[..k]))
            && (t.result.Some? ==>
                  && t.result == Some(-2) && s.dest <= t.dest && t.dest - s.dest + 4 <= k
                  && Broke(s, t, Payload(e)[..t.dest - s.dest + 4]))
  {
    hide Step, Programmed, Burn, Writes, Room, InRegion, Tame, Broke, Wrote;
    var n, c := e.packet.length, Loaded(s, e);
    var p := Programmed(hw, c, 0, n);
    PacketImage(hw, c, 0, n);
    PackedRegion(c, p, 0, n);
    DataStepIs(hw, s, e);
    var k := if p.result.None? then Min(n, Room(s.dest, s.size)) else p.dest - c.dest + 4;
    assert c.ram[0..k] == Payload(e)[..k];
    SameWrites(c, p, s, Step(hw, s, e), Payload(e)[..k]);
  }

  lemma TakenObserved(hw: Hardware, s: State, e: Event, h: History)
    requires Shaped(s) && s.result.None? && Genuine(e) && Ordered(s, h)
    requires e.packet.Data? && InSequence(s, e) && s.packets != 0
    ensures var t := Step(hw, s, e);
            Observe(s, e, t, h)
            == if t.result.None? then h.(taken := h.taken + [Entry(e)], total := h.total + 1, streak := 0)
               else h.(streak := 0, broken := Payload(e))
  {
    hide Step;
  }

  /** The stored content of a file grows by what a packet writes. */
  lemma StoredWrote(h: History, s: State, t: State, p: Taken, k: nat)
    requires h.taken != [] && h.broken == [] && Whole(h) && |p.payload| % 4 == 0 && s.size == h.base.size
    requires Wrote(h.base, s, Stored4(h))
    requires k == Min(|p.payload|, Room(s.dest, s.size)) && Wrote(s, t, p.payload[..k])
    ensures Wrote(h.base, t, Stored4(h.(taken := h.taken + [p])))
  {
    assert s.dest == h.base.dest + |Stored4(h)|;
    StoredGrows(h, p, k);
    hide Stored4, Wrote;
    WroteThenWrote(h.base, s, t, Stored4(h), p.payload[..k]);
  }

  /** The stored content of a file up to a word of the packet that ends the session. */
  lemma StoredBroke(h: History, s: State, t: State, p: Taken, k: nat)
    requires h.taken != [] && h.broken == [] && Whole(h) && |p.payload| % 4 == 0 && p.payload != [] && s.size == h.base.size
    requires Wrote(h.base, s, Stored4(h)) && s.dest <= t.dest
    requires k == t.dest - s.dest + 4 <= Min(|p.payload|, Room(s.dest, s.size)) && Broke(s, t, p.payload[..k])
    ensures Kept(h.base, t, h.(broken := p.payload))
  {
    hide Wrote, Broke, Room, Content;
    assert s.dest == h.base.dest + |Stored4(h)| by { WroteTo(h.base, s, Stored4(h)); }
    ContentGrows(h, p);
    RoomAfter(h.base.dest, h.base.size, |Stored4(h)|);
    assert Stored4(h) == Content(h);
    WroteThenBroke(h.base, s, t, Stored4(h), p.payload[..k]);
    var g := h.(broken := p.payload);
    assert Content(g)[..t.dest - h.base.dest + 4] == Content(h) + p.payload[..k];
  }

  lemma WroteTo(s: State, t: State, data: seq<byte>)
    requires Wrote(s, t, data)
    ensures t.dest == s.dest + |data| && |data| % 4 == 0
  {
  }

  /** What `TakenData` says of the step from `s` to `t`. */
  ghost predicate Burnt(s: State, t: State, p: Taken) {
    var k := Min(|p.payload|, Room(s.dest, s.size));
    && t.size == s.size && InRegion(t.dest)
    && (t.result.None? ==> Wrote(s, t, p.payload[..k]))
    && (t.result.Some? ==>
          s.dest <= t.dest && t.dest - s.dest + 4 <= k && Broke(s, t, p.payload[..t.dest - s.dest + 4]))
  }

  lemma BurntImage(s: State, t: State, h: History, p: Taken)
    requires h.open && h.taken != [] && |p.payload| % 4 == 0 && p.payload != [] && s.result.None? && Imaged(s, h)
    requires AllTame(h.sizes) ==> Burnt(s, t, p)
    requires (t.result.None? || t.result == Some(-2)) && t.size == s.size
    ensures t.result.None? ==> Imaged(t, h.(taken := h.taken + [p], total := h.total + 1, streak := 0))
    ensures t.result.Some? ==> Imaged(t, h.(streak := 0, broken := p.payload))
  {
    hide Content, Stored4, Wrote, Broke, Room, InRegion, Tame, Min;
    ContentGrows(h, p);
    SameFile(h.(broken := p.payload), h.(streak := 0, broken := p.payload));
    SameFile(h.(taken := h.taken + [p]), h.(taken := h.taken + [p], total := h.total + 1, streak := 0));
    if AllTame(h.sizes) {
      if t.result.None? {
        StoredWrote(h, s, t, p, Min(|p.payload|, Room(s.dest, s.size)));
      } else {
        StoredBroke(h, s, t, p, t.dest - s.dest + 4);
      }
    }
  }

  lemma DataFileStep(hw: Hardware, s: State, e: Event, h: History)
    requires Shaped(s) && s.result.None? && Genuine(e) && Ordered(s, h) && Imaged(s, h)
    requires e.packet.Data? && InSequence(s, e) && s.packets != 0
    ensures Imaged(Step(hw, s, e), Observe(s, e, Step(hw, s, e), h))
  {
    hide Step, Observe, Content, Wrote, Room, InRegion, Tame, Min;
    TakenObserved(hw, s, e, h);
    OnlyBreaks(hw, s, e);
    if AllTame(h.sizes) {
      TakenData(hw, s, e);
    }
    BurntImage(s, Step(hw, s, e), h, Entry(e));
  }

  lemma ImagedStep(hw: Hardware, s: State, e: Event, h: History)
    requires Shaped(s) && s.result.None? && Genuine(e) && Ordered(s, h) && Imaged(s, h)
    ensures Imaged(Step(hw, s, e), Observe(s, e, Step(hw, s, e), h))
  {
    hide Imaged, Step, Observe;
    if !e.packet.Data? || !InSequence(s, e) {
      IdleStep(hw, s, e, h);
    } else if s.packets == 0 {
      HeaderStep(hw, s, e, h);
    } else {
      DataFileStep(hw, s, e, h);
    }
  }

  lemma {:induction false} ImageHolds(hw: Hardware, s: State, es: seq<Event>)
    requires Fresh(s) && AllGenuine(es)
    ensures Imaged(Exec(hw, s, es), Log(hw, s, es))
    decreases |es|
  {
    if es == [] {
    } else {
      ImageHolds(hw, s, es[..|es| - 1]);
      hide Imaged, Step, Balanced, Budgeted, Explained;
      var t := Exec(hw, s, es[..|es| - 1]);
      if t.result.None? {
        BooksHold(hw, s, es[..|es| - 1]);
        ImagedStep(hw, t, es[|es| - 1], Log(hw, s, es[..|es| - 1]));
      }
    }
  }
}
