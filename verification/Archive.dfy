/** What stays in flash of the files of a session that are finished. */
module Archive {
  import opened Machine
  import opened Framing
  import opened Header
  import opened Flash
  import opened Session
  import opened Ledger
  import opened Image
  import opened FileImage
  import opened Erasing

  ghost predicate AllFit(sizes: seq<int>) {
    forall i :: 0 <= i < |sizes| ==> 0 <= sizes[i] < FLASH_SIZE
  }

  lemma FitIsTame(sizes: seq<int>)
    requires AllFit(sizes)
    ensures AllTame(sizes)
  {
  }

  /** What a file's data packets carried. */
  function Carried(f: File): seq<byte> {
    if f.taken == [] then [] else Joined(f.taken[1..])
  }

  /** How much of that was stored. */
  function StoredLength(f: File): nat {
    Min(|Carried(f)|, Room(f.base.dest, f.base.size))
  }

  /** The stored bytes of `f` on pages before `floor` are in flash. */
  ghost predicate Survives(flash: Words, f: File, floor: nat) {
    forall i :: 0 <= i < StoredLength(f) && Mapped(flash, f.base.dest + i) && PageOf(f.base.dest + i) < floor ==>
      ByteAt(flash, f.base.dest + i) == Carried(f)[i]
  }

  /** The page from which the next file on may have erased: that of its start. */
  function Floor(h: History, j: nat): nat
    requires j < |h.done|
  {
    if j + 1 < |h.done| then PageOf(h.done[j + 1].base.dest)
    else if h.open then PageOf(h.base.dest)
    else PageOf(APPLICATION_ADDRESS + FLASH_SIZE) + 1
  }

  /** Every finished file is in flash below the page on which the next one starts, and all of the last one as
      long as no other has started. The files lie one behind the other, below the destination. */
  ghost predicate Archived(s: State, h: History) {
    AllFit(h.sizes) ==>
      && (forall j :: 0 <= j < |h.done| ==> Settled(s, h, j))
      && (h.open ==> h.base.dest <= s.dest)
  }

  ghost predicate Settled(s: State, h: History, j: nat)
    requires j < |h.done|
  {
    var f := h.done[j];
    && f.base.dest + StoredLength(f) <= (if j + 1 < |h.done| then h.done[j + 1].base.dest else if h.open then h.base.dest else s.dest)
    && f.base.dest <= s.dest && f.base.dest + StoredLength(f) <= s.dest && Survives(s.flash, f, Floor(h, j))
  }

  /** Flash below `floor` pages and below `dest` is the same, and the books of finished files are. */
  lemma SettledSame(s: State, h: History, t: State, g: History, j: nat)
    requires j < |h.done| && Settled(s, h, j) && g.done == h.done && t.dest >= s.dest
    requires t.flash.Keys == s.flash.Keys
    requires (h.open && g.open && g.base.dest == h.base.dest) || (!h.open && !g.open)
    requires forall a :: a in s.flash && a < s.dest ==> t.flash[a] == s.flash[a]
    ensures Settled(t, g, j)
  {
    hide Carried, Room, WordAt;
  }

  /** A filename packet is taken: the pages before that of the destination stay. */
  lemma SettledHeader(s: State, h: History, t: State, g: History, j: nat)
    requires j < |h.done| && Settled(s, h, j) && g.done == h.done && t.dest == s.dest && InRegion(s.dest)
    requires !h.open && g.open && g.base.dest == s.dest && t.flash.Keys == s.flash.Keys
    requires j + 1 < |h.done| ==> h.done[j + 1].base.dest <= s.dest
    requires forall a :: a in s.flash && PageOf(a) < PageOf(s.dest) ==> t.flash[a] == s.flash[a]
    ensures Settled(t, g, j)
  {
    hide Carried, Room, WordAt;
    if j + 1 < |h.done| {
      PageOrder(h.done[j + 1].base.dest, s.dest);
    } else {
      PageOrder(s.dest, APPLICATION_ADDRESS + FLASH_SIZE);
    }
  }

  lemma PageOrder(a: nat, b: nat)
    requires a <= b
    ensures PageOf(a) <= PageOf(b)
  {
  }

  /** The file that an EOT ends is in flash. */
  lemma NewlyDone(s: State, h: History, t: State, g: History)
    requires h.open && h.taken != [] && h.broken == [] && Kept(h.base, s, h) && InRegion(h.base.dest)
    requires g.done == h.done + [File(h.taken, h.base)] && !g.open && t.dest == s.dest && t.flash == s.flash
    ensures Settled(t, g, |h.done|)
  {
    hide Joined, Burn, Writes, Room, WordAt, ByteAt;
    var f := File(h.taken, h.base);
    assert Content(h) == Carried(f);
    BurnLies(h.base.flash, h.base.dest, Content(h), StoredLength(f));
  }

  /** The files before it, of which the last one has a new neighbour in the list. */
  lemma StillDone(s: State, h: History, t: State, g: History, j: nat)
    requires j < |h.done| && Settled(s, h, j) && h.open && !g.open && t.dest == s.dest && t.flash == s.flash
    requires g.done == h.done + [File(h.taken, h.base)]
    ensures Settled(t, g, j)
  {
    hide Carried, Room, WordAt, Survives;
  }

  lemma BelowSame(s: State, t: State, data: seq<byte>)
    requires Wrote(s, t, data) || Broke(s, t, data)
    ensures t.flash.Keys == s.flash.Keys && s.dest <= t.dest
    ensures forall a :: a in s.flash && a < s.dest ==> t.flash[a] == s.flash[a]
  {
    hide WordAt, Writes;
  }

  lemma ArchivedData(hw: Hardware, s: State, e: Event, h: History)
    requires Shaped(s) && s.result.None? && Genuine(e) && Ordered(s, h) && Imaged(s, h) && Archived(s, h)
    requires e.packet.Data? && InSequence(s, e) && s.packets != 0
    ensures Archived(Step(hw, s, e), Observe(s, e, Step(hw, s, e), h))
  {
    hide Step, Observe, Settled, Kept, Content, Wrote, Broke, Tame, InRegion, Room, AllFit, AllTame;
    var t := Step(hw, s, e);
    var g := Observe(s, e, t, h);
    TakenObserved(hw, s, e, h);
    if AllFit(h.sizes) {
      FitIsTame(h.sizes);
      TameSize(h);
      TakenData(hw, s, e);
      BelowSame(s, t, Payload(e)[..if t.result.None? then Min(e.packet.length, Room(s.dest, s.size)) else t.dest - s.dest + 4]);
      forall j | 0 <= j < |g.done|
        ensures Settled(t, g, j)
      {
        SettledSame(s, h, t, g, j);
      }
    }
  }

  lemma TameSize(h: History)
    requires AllTame(h.sizes) && h.sizes != []
    ensures Tame(h.sizes[|h.sizes| - 1])
  {
  }

  lemma ArchivedIdle(hw: Hardware, s: State, e: Event, h: History)
    requires Shaped(s) && s.result.None? && Genuine(e) && Ordered(s, h) && Imaged(s, h) && Archived(s, h)
    requires e.packet.Data? ==> !InSequence(s, e)
    ensures Archived(Step(hw, s, e), Observe(s, e, Step(hw, s, e), h))
  {
    hide Step, Observe, Settled, Kept, Content, Tame, InRegion, Room, AllFit, AllTame;
    var t := Step(hw, s, e);
    var g := Observe(s, e, t, h);
    IdleEffect(hw, s, e);
    IdleHistory(s, e, t, h);
    if AllFit(h.sizes) {
      FitIsTame(h.sizes);
      if h.open && !g.open {
        NewlyDone(s, h, t, g);
      }
      forall j | 0 <= j < |h.done|
        ensures Settled(t, g, j)
      {
        if h.open && !g.open {
          StillDone(s, h, t, g, j);
        } else {
          SettledSame(s, h, t, g, j);
        }
      }
    }
  }

  lemma LastFits(sizes: seq<int>, size: int)
    ensures AllFit(sizes + [size]) <==> AllFit(sizes) && 0 <= size < FLASH_SIZE
  {
    if AllFit(sizes + [size]) {
      assert (sizes + [size])[|sizes|] == size;
      assert forall i :: 0 <= i < |sizes| ==> (sizes + [size])[i] == sizes[i];
    }
  }

  /** The erases of a filename packet leave the pages before the destination's alone. */
  lemma EarlierPagesSame(hw: Hardware, s: State, e: Event)
    requires Shaped(s) && s.result.None? && Genuine(e) && e.packet.Data? && InSequence(s, e) && s.packets == 0
    requires InRegion(s.dest) && Step(hw, s, e).result.None? && 0 <= Step(hw, s, e).size
    ensures var t := Step(hw, s, e);
            && t.flash.Keys == s.flash.Keys
            && forall a :: a in s.flash && PageOf(a) < PageOf(s.dest) ==> t.flash[a] == s.flash[a]
  {
    hide Erased, Pages, Converted, NameText, FieldText, PageOf;
    var g := Headed(s.(errors := 0), e.buf);
    ErasedClears(hw, g, 0, Pages(g.size));
  }

  lemma ArchivedHeader(hw: Hardware, s: State, e: Event, h: History)
    requires Shaped(s) && s.result.None? && Genuine(e) && Ordered(s, h) && Imaged(s, h) && Archived(s, h)
    requires e.packet.Data? && InSequence(s, e) && s.packets == 0
    ensures Archived(Step(hw, s, e), Observe(s, e, Step(hw, s, e), h))
  {
    hide Step, Observe, Settled, Kept, Content, Tame, InRegion, Room, AllFit, AllTame, PageOf;
    var t := Step(hw, s, e);
    var g := Observe(s, e, t, h);
    if t.result.Some? {
      NoFile(hw, s, e, h);
      ClosingHistory(s, e, t, h);
      if AllFit(h.sizes) {
        forall j | 0 <= j < |g.done|
          ensures Settled(t, g, j)
        {
          SettledSame(s, h, t, g, j);
        }
      }
    } else {
      NewFile(hw, s, e, h);
      LastFits(h.sizes, t.size);
      if AllFit(g.sizes) {
        FitIsTame(h.sizes);
        EarlierPagesSame(hw, s, e);
        forall j | 0 <= j < |g.done|
          ensures Settled(t, g, j)
        {
          if j + 1 < |h.done| {
            assert Settled(s, h, j + 1);
            BaseBelow(s, h, j + 1);
          }
          SettledHeader(s, h, t, g, j);
        }
      }
    }
  }

  lemma BaseBelow(s: State, h: History, j: nat)
    requires j < |h.done| && Settled(s, h, j)
    ensures h.done[j].base.dest <= s.dest
  {
  }

  lemma ClosingHistory(s: State, e: Event, t: State, h: History)
    requires Genuine(e) && e.packet.Data? && InSequence(s, e) && s.packets == 0 && s.result.None? && t.result.Some?
    ensures Observe(s, e, t, h).done == h.done
  {
  }

  lemma ArchivedStep(hw: Hardware, s: State, e: Event, h: History)
    requires Shaped(s) && s.result.None? && Genuine(e) && Ordered(s, h) && Imaged(s, h) && Archived(s, h)
    ensures Archived(Step(hw, s, e), Observe(s, e, Step(hw, s, e), h))
  {
    hide Step, Observe, Archived, Imaged, Ordered;
    if !e.packet.Data? || !InSequence(s, e) {
      ArchivedIdle(hw, s, e, h);
    } else if s.packets == 0 {
      ArchivedHeader(hw, s, e, h);
    } else {
      ArchivedData(hw, s, e, h);
    }
  }

  /** The image of a batch, in every reachable state: when every announced size fits, each finished file is in
      flash below the page on which the next one starts. */
  lemma {:induction false} ArchiveHolds(hw: Hardware, s: State, es: seq<Event>)
    requires Fresh(s) && AllGenuine(es)
    ensures Archived(Exec(hw, s, es), Log(hw, s, es))
    decreases |es|
  {
    if es == [] {
    } else {
      hide Archived, Imaged, Step, Balanced, Budgeted, Explained;
      ArchiveHolds(hw, s, es[..|es| - 1]);
      var t := Exec(hw, s, es[..|es| - 1]);
      if t.result.None? {
        BooksHold(hw, s, es[..|es| - 1]);
        ImageHolds(hw, s, es[..|es| - 1]);
        ArchivedStep(hw, t, es[|es| - 1], Log(hw, s, es[..|es| - 1]));
      }
    }
  }
}
