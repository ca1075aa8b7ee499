/** The first file of a session: its place in flash, its pages, and its independence of the way it
    was cut into packets. */
module FirstFile {
  import opened Machine
  import opened Framing
  import opened Header
  import opened Flash
  import opened Session
  import opened Ledger
  import opened Image
  import opened FileImage
  import opened Erasing

  /** Flash, log and status are those of the session's start after the erase loop for `b.size`. */
  ghost predicate Opening(hw: Hardware, s0: State, b: State) {
    var r := Erased(hw, s0, 0, Pages(b.size));
    && b.dest == s0.dest && b.size <= FLASH_SIZE - 1
    && b.complete == r.complete && b.flash == r.flash && b.ops == r.ops
  }

  /** Until a second filename packet is taken: nothing was done to flash before the first one, and that one
      did exactly its erases. */
  ghost predicate Placed(hw: Hardware, s0: State, s: State, h: History) {
    if h.sizes == [] then
      s.dest == s0.dest && s.complete == s0.complete && s.flash == s0.flash && s.ops == s0.ops
    else |h.sizes| == 1 ==> Opening(hw, s0, h.base) && s.complete == h.base.complete
  }

  lemma OpeningHeader(hw: Hardware, s0: State, s: State, e: Event)
    requires Shaped(s) && s.result.None? && Genuine(e)
    requires s.dest == s0.dest && s.complete == s0.complete && s.flash == s0.flash && s.ops == s0.ops
    requires e.packet.Data? && InSequence(s, e) && s.packets == 0
    ensures var t := Step(hw, s, e); t.result.None? ==> Opening(hw, s0, t)
  {
    hide Erased, Pages, Converted, NameText, FieldText;
    var g := Headed(s.(errors := 0), e.buf);
    ErasedSame(hw, s0, g, 0, Pages(g.size));
  }

  lemma PlacedStep(hw: Hardware, s0: State, s: State, e: Event, h: History)
    requires Shaped(s) && s.result.None? && Genuine(e) && Ordered(s, h) && Placed(hw, s0, s, h)
    ensures Placed(hw, s0, Step(hw, s, e), Observe(s, e, Step(hw, s, e), h))
  {
    hide Opening, Step, Observe;
    var t := Step(hw, s, e);
    if !e.packet.Data? || !InSequence(s, e) {
      IdleEffect(hw, s, e);
      IdleHistory(s, e, t, h);
    } else if s.packets == 0 {
      if t.result.Some? {
        NoFile(hw, s, e, h);
      } else {
        NewFile(hw, s, e, h);
        if h.sizes == [] {
          OpeningHeader(hw, s0, s, e);
        }
      }
    } else {
      TakenObserved(hw, s, e, h);
      OnlyBreaks(hw, s, e);
    }
  }

  lemma {:induction false} PlacedHolds(hw: Hardware, s: State, es: seq<Event>)
    requires Fresh(s) && AllGenuine(es)
    ensures Placed(hw, s, Exec(hw, s, es), Log(hw, s, es))
    decreases |es|
  {
    if es == [] {
    } else {
      PlacedHolds(hw, s, es[..|es| - 1]);
      hide Placed, Step, Balanced, Budgeted, Explained;
      var t := Exec(hw, s, es[..|es| - 1]);
      if t.result.None? {
        BooksHold(hw, s, es[..|es| - 1]);
        PlacedStep(hw, s, t, es[|es| - 1], Log(hw, s, es[..|es| - 1]));
      }
    }
  }

  // ---------------------------------------------------------------------------------------------
  // The theorems

  /** A run in which one filename packet was taken, and announced a tame size. Its file may go on, or have
      had its EOT, and the session may have ended. */
  ghost predicate UnderWay(hw: Hardware, s: State, es: seq<Event>)
    requires Fresh(s) && AllGenuine(es)
  {
    Receiving(Log(hw, s, es))
  }

  ghost predicate Receiving(h: History) {
    |h.sizes| == 1 && AllTame(h.sizes)
  }

  /** A size rounded up to whole words. */
  function Rounded(size: nat): nat { (size + 3) / 4 * 4 }

  /** The first `n` bytes of `c` are in flash from the application's address on. */
  ghost predicate InFlash(flash: Words, c: seq<byte>, n: nat)
    requires n <= |c|
  {
    LiesAt(flash, APPLICATION_ADDRESS, c, n)
  }

  /** Words off the pages that an image of `size` bytes needs hold what they held. */
  ghost predicate ElsewhereSame(before: Words, after: Words, size: int) {
    && after.Keys == before.Keys
    && forall a :: a in before && !OnPages(a, APPLICATION_ADDRESS, 0, Pages(size)) ==> after[a] == before[a]
  }

  /** Only words among the first `n` bytes of the region differ. */
  ghost predicate Outside(before: Words, after: Words, n: nat) {
    && after.Keys == before.Keys
    && forall a :: a in before && !Covered(a, APPLICATION_ADDRESS, n) ==> after[a] == before[a]
  }

  /** Every program operation in the log comes after a completed erase of the page it writes to. */
  ghost predicate ErasedFirst(ops: seq<FlashOp>) {
    forall j :: 0 <= j < |ops| && ops[j].Program? ==> ErasedBefore(ops, j, PageOf(ops[j].addr))
  }

  ghost predicate ErasedBefore(ops: seq<FlashOp>, j: nat, page: nat)
    requires j <= |ops|
  {
    exists i :: 0 <= i < j && ops[i].Erase? && ops[i].done && PageOf(ops[i].page) == page
  }

  /** How much of the first file's content has room. */
  ghost function Progress(h: History): nat {
    Min(|Content(h)|, Room(APPLICATION_ADDRESS, h.base.size))
  }

  /** The bytes of the first file that are in flash. */
  ghost function Landed(t: State): nat {
    if t.dest < APPLICATION_ADDRESS then 0 else t.dest - APPLICATION_ADDRESS
  }

  /** The bytes of the first file that were written: those stored, and a word that failed to verify. */
  ghost function Written(t: State, h: History): nat {
    Landed(t) + if h.broken == [] then 0 else 4
  }

  /** The first file in flash: the stored bytes are as far as the content has room, unless a word failed to
      verify; that word is the next one, and holds something else. Nothing else was written. */
  ghost predicate InPlace(t: State, h: History) {
    var n, p := Written(t, h), Landed(t);
    && t.dest == APPLICATION_ADDRESS + p <= APPLICATION_ADDRESS + FLASH_SIZE && p % 4 == 0
    && n <= Progress(h) && (h.broken == [] ==> p == Progress(h))
    && InFlash(t.flash, Content(h), p) && Outside(h.base.flash, t.flash, n)
    && (h.broken != [] ==> WrongAt(t.flash, t.dest, Content(h), p))
  }

  ghost predicate Logged(t: State, h: History) {
    var n := Written(t, h);
    && n % 4 == 0 && n <= Progress(h) && APPLICATION_ADDRESS + n <= 0x1_0000_0000
    && t.ops == h.base.ops + Writes(APPLICATION_ADDRESS, Content(h)[..n])
  }

  lemma BurntIn(b: Words, flash: Words, c: seq<byte>, n: nat)
    requires n % 4 == 0 && n <= |c| && flash.Keys == b.Keys
    requires forall a :: a in flash && a != APPLICATION_ADDRESS + n ==> flash[a] == Burn(b, APPLICATION_ADDRESS, c[..n])[a]
    ensures InFlash(flash, c, n)
    ensures forall a :: a in b && a != APPLICATION_ADDRESS + n && !Covered(a, APPLICATION_ADDRESS, n) ==> flash[a] == b[a]
  {
    hide WordAt, ByteOf, Burn;
    forall i | 0 <= i < n && Mapped(flash, APPLICATION_ADDRESS + i)
      ensures ByteAt(flash, APPLICATION_ADDRESS + i) == c[i]
    {
      InWord(APPLICATION_ADDRESS, i);
      BurntByte(b, APPLICATION_ADDRESS, c[..n], i);
    }
    BurnOutside(b, c[..n]);
  }

  lemma WroteInPlace(t: State, h: History)
    requires h.broken == [] && h.base.dest == APPLICATION_ADDRESS && InRegion(t.dest) && Progress(h) % 4 == 0
    requires Wrote(h.base, t, Content(h)[..Progress(h)])
    ensures InPlace(t, h) && Logged(t, h)
  {
    hide Content, Burn, Writes, Room, WordAt;
    BurntIn(h.base.flash, t.flash, Content(h), Progress(h));
    BurnOutside(h.base.flash, Content(h)[..Progress(h)]);
  }

  lemma BurnOutside(b: Words, data: seq<byte>)
    requires |data| % 4 == 0
    ensures Outside(b, Burn(b, APPLICATION_ADDRESS, data), |data|)
  {
  }

  lemma LastWord(c: seq<byte>, p: nat)
    requires p + 4 <= |c|
    ensures c[..p + 4][..p] == c[..p] && WordAt(c[..p + 4], p) == WordAt(c, p)
  {
  }

  lemma BrokeInPlace(t: State, h: History)
    requires h.broken != [] && h.base.dest == APPLICATION_ADDRESS && InRegion(t.dest)
    requires Written(t, h) <= Progress(h) && Broke(h.base, t, Content(h)[..Written(t, h)])
    ensures InPlace(t, h) && Logged(t, h)
  {
    hide Content, Burn, Writes, Room, WordAt;
    var c, p := Content(h), Landed(t);
    LastWord(c, p);
    BurntIn(h.base.flash, t.flash, c, p);
    if t.dest in t.flash {
      var k := WordDiffers(t.flash[t.dest], c, p);
    }
    CoveredMore4(h.base.flash, p);
  }

  lemma CoveredMore4(b: Words, p: nat)
    requires p % 4 == 0
    ensures forall a :: a in b && !Covered(a, APPLICATION_ADDRESS, p + 4) ==>
              !Covered(a, APPLICATION_ADDRESS, p) && a != APPLICATION_ADDRESS + p
  {
  }

  lemma RoundedFits(size: nat, k: nat)
    requires size <= PAGE_SIZE * k
    ensures Rounded(size) <= PAGE_SIZE * k
  {
    var q := (size + 3) / 4;
    assert 4 * q <= size + 3;
    assert q <= 512 * k;
  }

  lemma PageBetween(a: nat, p: nat, k: nat)
    requires PAGE_SIZE * p <= a < PAGE_SIZE * (p + k)
    ensures p <= PageOf(a) < p + k
  {
  }

  lemma BurnOnPages(a: nat, n: nat, size: nat)
    requires size <= FLASH_SIZE - 1 && n <= Rounded(size) && Covered(a, APPLICATION_ADDRESS, n)
    ensures OnPages(a, APPLICATION_ADDRESS, 0, Pages(size))
  {
    hide Pages, Rounded, PageOf;
    RoundedFits(size, Pages(size));
    PageBetween(a, APPLICATION_ADDRESS / PAGE_SIZE, Pages(size));
    PageBetween(APPLICATION_ADDRESS, APPLICATION_ADDRESS / PAGE_SIZE, 1);
  }

  /** Off its pages, neither erasing nor writing an image changes anything. */
  lemma Elsewhere(hw: Hardware, s: State, b: State, flash: Words, n: nat)
    requires Fresh(s) && Opening(hw, s, b) && 0 <= b.size && n <= Rounded(b.size) && Outside(b.flash, flash, n)
    ensures ElsewhereSame(s.flash, flash, b.size)
  {
    hide Erased, Pages, Rounded;
    ErasedClears(hw, s, 0, Pages(b.size));
    forall a | a in s.flash && !OnPages(a, APPLICATION_ADDRESS, 0, Pages(b.size))
      ensures flash[a] == s.flash[a]
    {
      if Covered(a, APPLICATION_ADDRESS, n) {
        BurnOnPages(a, n, b.size);
      }
    }
  }

  lemma RoomIsRounded(size: nat)
    ensures Room(APPLICATION_ADDRESS, size) == Rounded(size)
  {
  }

  lemma ImagedIsInPlace(hw: Hardware, s: State, t: State, h: History)
    requires Fresh(s) && Imaged(t, h) && Ordered(t, h) && Placed(hw, s, t, h) && Receiving(h)
    ensures Opening(hw, s, h.base) && InPlace(t, h) && Logged(t, h)
  {
    hide Content, Erased, Pages, Burn, Writes, Wrote, Broke, Room, InPlace, Logged;
    assert Stored4(h) == Content(h)[..Progress(h)];
    if h.broken == [] {
      WroteTo(h.base, t, Stored4(h));
      WroteInPlace(t, h);
    } else {
      BrokeInPlace(t, h);
    }
  }

  lemma FirstFileInPlace(hw: Hardware, s: State, es: seq<Event>)
    requires Fresh(s) && AllGenuine(es) && UnderWay(hw, s, es)
    ensures var t, h := Exec(hw, s, es), Log(hw, s, es);
            Opening(hw, s, h.base) && InPlace(t, h) && Logged(t, h)
  {
    hide Exec, Log, Imaged, Placed, InPlace, Logged, Opening, Receiving, Ordered, Balanced, Budgeted, Explained;
    ImageHolds(hw, s, es);
    BooksHold(hw, s, es);
    PlacedHolds(hw, s, es);
    ImagedIsInPlace(hw, s, Exec(hw, s, es), Log(hw, s, es));
  }

  /** Image and progress of the first file, in every reachable state: the destination has moved by the
      length of what the data packets carried, as far as it has room; so much of the content is in
      flash; every other word holds what it held after the filename packet, and off the file's pages
      what it held before. When a word failed to verify, that holds up to that word. */
  lemma FirstFileImage(hw: Hardware, s: State, es: seq<Event>)
    requires Fresh(s) && AllGenuine(es) && UnderWay(hw, s, es)
    ensures var t, h := Exec(hw, s, es), Log(hw, s, es);
            && InPlace(t, h)
            && (h.open ==> (h.broken != [] <==> t.result == Some(-2))) && (!h.open ==> h.broken == [])
            && (t.size < FLASH_SIZE ==> t.size == h.base.size) && (t.size >= FLASH_SIZE ==> t.result == Some(-1) && !h.open)
            && (0 <= h.base.size ==>
                  Room(APPLICATION_ADDRESS, h.base.size) == Rounded(h.base.size)
                  && ElsewhereSame(s.flash, t.flash, h.base.size))
            && (h.base.size < 0 ==> t.dest == APPLICATION_ADDRESS && t.flash == h.base.flash)
  {
    hide Exec, Log, Content, Opening, Room, InFlash, Rounded, Kept, Balanced, Budgeted, Explained;
    FirstFileInPlace(hw, s, es);
    ImageHolds(hw, s, es);
    BooksHold(hw, s, es);
    var t, h := Exec(hw, s, es), Log(hw, s, es);
    if 0 <= h.base.size {
      RoomIsRounded(h.base.size);
      Elsewhere(hw, s, h.base, t.flash, Written(t, h));
    }
  }

  /** Erase before program: when FLASHStatus is COMPLETE after the filename packet, every word written
      for the first file is on a page whose erase completed before, the last word included. */
  lemma EraseBeforeProgram(hw: Hardware, s: State, es: seq<Event>)
    requires Fresh(s) && AllGenuine(es) && UnderWay(hw, s, es) && Log(hw, s, es).base.complete
    ensures ErasedFirst(Exec(hw, s, es).ops)
  {
    hide Exec, Log, Content, UnderWay, InPlace, Room, ErasedFirst;
    FirstFileInPlace(hw, s, es);
    var t, h := Exec(hw, s, es), Log(hw, s, es);
    LogErasedFirst(hw, s, h.base, t.ops, Content(h)[..Written(t, h)]);
  }

  lemma LogErasedFirst(hw: Hardware, s: State, b: State, ops: seq<FlashOp>, c: seq<byte>)
    requires Fresh(s) && Opening(hw, s, b) && b.complete && |c| % 4 == 0 && |c| <= Room(APPLICATION_ADDRESS, b.size)
    requires ops == b.ops + Writes(APPLICATION_ADDRESS, c)
    ensures ErasedFirst(ops)
  {
    hide Erased, Room, WordAt, Rounded, Pages, PageOf, ErasedBefore;
    if b.size < 0 {
      NoRoom(b.size);
      var more := ErasedOps(hw, s, 0, Pages(b.size));
    } else {
      RoomIsRounded(b.size);
      ErasedClears(hw, s, 0, Pages(b.size));
      var m := Pages(b.size);
      assert s.ops + Erases(APPLICATION_ADDRESS, 0, m) == Erases(APPLICATION_ADDRESS, 0, m);
      forall j | 0 <= j < |ops| && ops[j].Program?
        ensures ErasedBefore(ops, j, PageOf(ops[j].addr))
      {
        var a := ops[j].addr;
        assert m <= j && a == APPLICATION_ADDRESS + 4 * (j - m);
        BurnOnPages(a, |c|, b.size);
        ListedFirst(ops, m, j, a);
      }
    }
  }

  /** The log starts with the erases of `m` pages, `a` is on one of them. */
  lemma ListedFirst(ops: seq<FlashOp>, m: nat, j: nat, a: nat)
    requires APPLICATION_ADDRESS + PAGE_SIZE * m <= 0x1_0000_0000 && Erases(APPLICATION_ADDRESS, 0, m) <= ops && m <= j <= |ops|
    requires OnPages(a, APPLICATION_ADDRESS, 0, m)
    ensures ErasedBefore(ops, j, PageOf(a))
  {
    var k := PageOf(a) - PageOf(APPLICATION_ADDRESS);
    assert ops[k] == Erases(APPLICATION_ADDRESS, 0, m)[k];
    PageAhead(APPLICATION_ADDRESS, k);
  }

  lemma NoRoom(size: int)
    requires size < 0
    ensures Room(APPLICATION_ADDRESS, size) == 0
  {
  }

  /** Segmentation independence: two sessions that start alike and announce the same size, whose data
      packets are cut in any way, leave the same flash, destination and log once what they carry
      agrees on the first `Rounded(size)` bytes and reaches that far. */
  lemma SegmentationIndependence(hw: Hardware, s: State, es: seq<Event>, fs: seq<Event>)
    requires Fresh(s) && AllGenuine(es) && AllGenuine(fs) && UnderWay(hw, s, es) && UnderWay(hw, s, fs)
    requires var h, g := Log(hw, s, es), Log(hw, s, fs);
             && h.broken == [] && g.broken == [] && h.base.size == g.base.size && 0 <= h.base.size
             && Rounded(h.base.size) <= |Content(h)| && Rounded(h.base.size) <= |Content(g)|
             && Content(h)[..Rounded(h.base.size)] == Content(g)[..Rounded(h.base.size)]
    ensures var t, u := Exec(hw, s, es), Exec(hw, s, fs);
            t.flash == u.flash && t.dest == u.dest && t.ops == u.ops
  {
    hide Exec, Log, Content, UnderWay, Erased, Writes, Room, WordAt;
    FirstFileInPlace(hw, s, es);
    FirstFileInPlace(hw, s, fs);
    var t, u, h, g := Exec(hw, s, es), Exec(hw, s, fs), Log(hw, s, es), Log(hw, s, fs);
    RoomIsRounded(h.base.size);
    SameImage(t, u, h, g);
  }

  lemma SameByte(t: Words, u: Words, c: seq<byte>, d: seq<byte>, n: nat, a: nat, k: nat)
    requires n <= |c| && n <= |d| && c[..n] == d[..n] && n % 4 == 0 && k < 4 && Covered(a, APPLICATION_ADDRESS, n)
    requires InFlash(t, c, n) && InFlash(u, d, n) && a in t && a in u
    ensures ByteOf(t[a], k) == ByteOf(u[a], k)
  {
    hide ByteOf;
    var i := a + k - APPLICATION_ADDRESS;
    InWord(APPLICATION_ADDRESS, i);
    assert ByteAt(t, APPLICATION_ADDRESS + i) == c[..n][i] == d[..n][i] == ByteAt(u, APPLICATION_ADDRESS + i);
  }

  lemma SameImage(t: State, u: State, h: History, g: History)
    requires InPlace(t, h) && InPlace(u, g) && h.broken == [] && g.broken == [] && h.base.flash == g.base.flash
    requires Progress(h) == Progress(g) && Content(h)[..Progress(h)] == Content(g)[..Progress(g)]
    ensures t.flash == u.flash
  {
    hide Content, Room, ByteOf, InFlash, Mapped;
    var n := Progress(h);
    forall a | a in t.flash
      ensures t.flash[a] == u.flash[a]
    {
      if Covered(a, APPLICATION_ADDRESS, n) {
        forall k | 0 <= k < 4
          ensures ByteOf(t.flash[a], k) == ByteOf(u.flash[a], k)
        {
          SameByte(t.flash, u.flash, Content(h), Content(g), n, a, k);
        }
        EqualWords(t.flash[a], u.flash[a]);
      }
    }
  }
}
