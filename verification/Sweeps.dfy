/** The erases of whole sessions: which of them stay in the application's region, and that no word of any
    file is written before its page was erased. */
module Sweeps {
  import opened Machine
  import opened Framing
  import opened Header
  import opened Flash
  import opened Session
  import opened Ledger
  import opened Image
  import opened FileImage
  import opened Erasing
  import opened FirstFile
  import opened Batch

  // ---------------------------------------------------------------------------------------------
  // Which pages

  lemma LongerLog(ops: seq<FlashOp>, op: FlashOp, all: seq<FlashOp>)
    requires |ops| < |all| && all[..|ops| + 1] == ops + [op]
    ensures all[..|ops|] == ops && all[|ops|] == op
  {
    assert all[..|ops|] == all[..|ops| + 1][..|ops|];
    assert all[|ops|] == all[..|ops| + 1][|ops|];
  }

  predicate ErasesAt(op: FlashOp, page: word) { op.Erase? && op.page == page }

  /** The operations from `from` on are erases of the pages behind that of `dest`, from the `i`th on. */
  ghost predicate Lists(ops: seq<FlashOp>, from: nat, dest: nat, i: nat) {
    forall j :: from <= j < |ops| ==> ErasesAt(ops[j], ToU32(dest + PAGE_SIZE * (i + j - from)))
  }

  lemma NoList(ops: seq<FlashOp>, dest: nat, i: nat)
    ensures Lists(ops, |ops|, dest, i)
  {
  }

  lemma ListsMore(ops: seq<FlashOp>, from: nat, dest: nat, i: nat)
    requires from < |ops| && ErasesAt(ops[from], ToU32(dest + PAGE_SIZE * i)) && Lists(ops, from + 1, dest, i + 1)
    ensures Lists(ops, from, dest, i)
  {
  }

  /** The erases that the loop adds are of consecutive pages from that of the destination on; unless one
      does not complete, of all it was asked for. */
  lemma {:induction false} ErasedList(hw: Hardware, s: State, i: nat, n: nat)
    requires i <= n
    ensures var r := Erased(hw, s, i, n);
            && |s.ops| <= |r.ops| <= |s.ops| + (n - i) && r.ops[..|s.ops|] == s.ops
            && (r.complete ==> |r.ops| == |s.ops| + (n - i))
            && Lists(r.ops, |s.ops|, s.dest, i)
    decreases n - i
  {
    hide ToU32, AfterErase, Lists;
    NoList(s.ops, s.dest, i);
    if i < n && s.complete {
      var page := ToU32(s.dest + PAGE_SIZE * i);
      var done := hw.completes(|s.ops|, page);
      var t := s.(complete := done, flash := AfterErase(hw, s.flash, |s.ops|, page), ops := s.ops + [Erase(page, done)]);
      ErasedList(hw, t, i + 1, n);
      var all := Erased(hw, t, i + 1, n).ops;
      LongerLog(s.ops, Erase(page, done), all);
      ListsMore(all, |s.ops|, s.dest, i);
    }
  }

  const REGION_END: nat := APPLICATION_ADDRESS + FLASH_SIZE

  predicate EraseInRegion(op: FlashOp) {
    op.Erase? && APPLICATION_ADDRESS <= op.page < REGION_END
  }

  ghost predicate NewErasesInRegion(s: State, t: State) {
    forall j :: |s.ops| <= j < |t.ops| ==> EraseInRegion(t.ops[j])
  }

  /** As many pages from that of `dest` on as `size` asks for end in the region. */
  predicate PagesFit(dest: nat, size: int) {
    0 <= size && PageOf(dest) + Pages(size) <= PageOf(REGION_END)
  }

  lemma ManyPages(size: int)
    requires -0x8000_0000 <= size < 0
    ensures Pages(size) >= 0x10_0000
  {
  }

  lemma PageAddress(dest: nat, k: nat)
    requires InRegion(dest)
    ensures PageOf(dest) <= PageOf(REGION_END)
    ensures dest + PAGE_SIZE * k < REGION_END <==> PageOf(dest) + k < PageOf(REGION_END)
  {
  }

  /** The pages asked for against the erases that are made. */
  lemma ListInRegion(hw: Hardware, g: State)
    requires InRegion(g.dest) && -0x8000_0000 <= g.size <= FLASH_SIZE - 1
    ensures var r := Erased(hw, g, 0, Pages(g.size));
            && |g.ops| <= |r.ops|
            && (PagesFit(g.dest, g.size) ==> NewErasesInRegion(g, r))
            && (r.complete && !PagesFit(g.dest, g.size) ==>
                  var j := |g.ops| + (PageOf(REGION_END) - PageOf(g.dest));
                  j < |r.ops| && !EraseInRegion(r.ops[j]))
  {
    hide Erased, Pages;
    var n, r := Pages(g.size), Erased(hw, g, 0, Pages(g.size));
    ErasedList(hw, g, 0, n);
    if g.size < 0 {
      ManyPages(g.size);
    }
    PageAddress(g.dest, 0);
    if PagesFit(g.dest, g.size) {
      forall j | |g.ops| <= j < |r.ops|
        ensures EraseInRegion(r.ops[j])
      {
        var k := j - |g.ops|;
        PageAddress(g.dest, k);
        assert ErasesAt(r.ops[j], ToU32(g.dest + PAGE_SIZE * k));
      }
    } else if r.complete {
      var k := PageOf(REGION_END) - PageOf(g.dest);
      PageAddress(g.dest, k);
      assert ErasesAt(r.ops[|g.ops| + k], ToU32(g.dest + PAGE_SIZE * k));
    }
  }

  /** A filename packet that is taken at a destination in the region: its erases stay in the region when the
      pages from the destination's on have room for the size; when all erases complete, only then. */
  lemma ErasesKeepRegion(hw: Hardware, s: State, e: Event)
    requires Shaped(s) && s.result.None? && Genuine(e) && e.packet.Data? && InSequence(s, e) && s.packets == 0
    requires InRegion(s.dest) && Step(hw, s, e).result.None? && -0x8000_0000 <= Step(hw, s, e).size
    ensures var t := Step(hw, s, e);
            && |s.ops| <= |t.ops|
            && (PagesFit(s.dest, t.size) ==> NewErasesInRegion(s, t))
            && (t.complete ==> (NewErasesInRegion(s, t) <==> PagesFit(s.dest, t.size)))
  {
    hide Erased, Pages, PagesFit, Converted, NameText, FieldText;
    var g := Headed(s.(errors := 0), e.buf);
    ListInRegion(hw, g);
  }

  /** The same in every reachable state of a session whose files so far announced tame sizes. */
  lemma ErasesKeepRegionInRuns(hw: Hardware, s: State, es: seq<Event>, e: Event)
    requires Fresh(s) && AllGenuine(es) && AllTame(Log(hw, s, es).sizes) && Genuine(e) && e.packet.Data?
    requires var u := Exec(hw, s, es);
             u.result.None? && InSequence(u, e) && u.packets == 0 && Step(hw, u, e).result.None?
    ensures var u := Exec(hw, s, es);
            var t := Step(hw, u, e);
            && |u.ops| <= |t.ops|
            && (PagesFit(u.dest, t.size) ==> NewErasesInRegion(u, t))
            && (t.complete ==> (NewErasesInRegion(u, t) <==> PagesFit(u.dest, t.size)))
  {
    hide Exec, Log, Step, NewErasesInRegion, PagesFit;
    BatchHolds(hw, s, es);
    ForwardHolds(hw, s, es);
    ForwardHeader(hw, Exec(hw, s, es), e);
    ErasesKeepRegion(hw, Exec(hw, s, es), e);
  }

  /** The filename packet of a later file in such a state, all its erases done: of the words below the
      destination exactly those on its page are lost. */
  lemma NextFileErasesTailInRuns(hw: Hardware, s: State, es: seq<Event>, e: Event, a: nat)
    requires Fresh(s) && AllGenuine(es) && AllTame(Log(hw, s, es).sizes) && Genuine(e) && e.packet.Data?
    requires var u := Exec(hw, s, es);
             u.result.None? && InSequence(u, e) && u.packets == 0 && a in u.flash && a < u.dest
    requires var t := Step(hw, Exec(hw, s, es), e); t.result.None? && t.complete && 0 < t.size
    ensures var u, t := Exec(hw, s, es), Step(hw, Exec(hw, s, es), e);
            a in t.flash && t.flash[a] == if PageOf(a) == PageOf(u.dest) then ERASED else u.flash[a]
  {
    hide Exec, Log, Step;
    BatchHolds(hw, s, es);
    NextFileErasesTail(hw, Exec(hw, s, es), e, a);
  }

  // ---------------------------------------------------------------------------------------------
  // Erase before program, for every file

  /** Every word that the current file may still write is on a page that was erased. */
  ghost predicate Clear(ops: seq<FlashOp>, dest: nat, size: int) {
    forall a :: dest <= a < dest + Room(dest, size) ==> ErasedBefore(ops, |ops|, PageOf(a))
  }

  /** As long as FLASHStatus is COMPLETE: nothing was written to a page that was not erased before, and the
      current file's pages are erased. */
  ghost predicate Swept(s: State, h: History) {
    AllTame(h.sizes) && s.complete ==>
      ErasedFirst(s.ops) && (h.open && s.result.None? ==> Clear(s.ops, s.dest, s.size))
  }

  lemma StillErased(ops: seq<FlashOp>, more: seq<FlashOp>, page: nat)
    requires ErasedBefore(ops, |ops|, page)
    ensures forall j :: |ops| <= j <= |ops| + |more| ==> ErasedBefore(ops + more, j, page)
  {
    var i :| 0 <= i < |ops| && ops[i].Erase? && ops[i].done && PageOf(ops[i].page) == page;
    assert (ops + more)[i] == ops[i];
  }

  lemma StillFirst(ops: seq<FlashOp>, more: seq<FlashOp>, j: nat)
    requires j < |ops| && ErasedFirst(ops) && ops[j].Program?
    ensures ErasedBefore(ops + more, j, PageOf(ops[j].addr))
  {
    var i :| 0 <= i < j && ops[i].Erase? && ops[i].done && PageOf(ops[i].page) == PageOf(ops[j].addr);
    assert (ops + more)[i] == ops[i];
  }

  lemma SweptWrites(ops: seq<FlashOp>, dest: nat, size: int, data: seq<byte>)
    requires ErasedFirst(ops) && Clear(ops, dest, size) && |data| % 4 == 0 && |data| <= Room(dest, size)
    requires dest + |data| <= 0x1_0000_0000
    ensures ErasedFirst(ops + Writes(dest, data)) && Clear(ops + Writes(dest, data), dest + |data|, size)
  {
    hide ErasedBefore, Room, WordAt;
    var more := Writes(dest, data);
    forall j | 0 <= j < |ops + more| && (ops + more)[j].Program?
      ensures ErasedBefore(ops + more, j, PageOf((ops + more)[j].addr))
    {
      if j < |ops| {
        StillFirst(ops, more, j);
      } else {
        var a := dest + 4 * (j - |ops|);
        assert (ops + more)[j].addr == a;
        StillErased(ops, more, PageOf(a));
      }
    }
    RoomAfter(dest, size, |data|);
    forall a | dest + |data| <= a < dest + |data| + Room(dest + |data|, size)
      ensures ErasedBefore(ops + more, |ops + more|, PageOf(a))
    {
      StillErased(ops, more, PageOf(a));
    }
  }

  lemma SweptErases(ops: seq<FlashOp>, more: seq<FlashOp>)
    requires ErasedFirst(ops) && forall j :: 0 <= j < |more| ==> more[j].Erase?
    ensures ErasedFirst(ops + more)
  {
    hide ErasedBefore;
    assert forall j :: |ops| <= j < |ops + more| ==> (ops + more)[j] == more[j - |ops|];
    forall j | 0 <= j < |ops| && ops[j].Program?
      ensures ErasedBefore(ops + more, j, PageOf((ops + more)[j].addr))
    {
      StillFirst(ops, more, j);
    }
  }

  /** The pages of the words that a file of `size` bytes may write from `dest` on. */
  lemma RoomOnPages(dest: nat, size: int, a: nat)
    requires InRegion(dest) && Tame(size) && dest <= a < dest + Room(dest, size)
    ensures 0 <= size && PageOf(dest) <= PageOf(a) < PageOf(dest) + Pages(size)
  {
    hide Pages, Rounded, Room, PageOf;
    var k := Pages(size);
    RoomEnds(dest, size);
    RoundedFits(size, k);
    PageBounds(dest, a, k);
  }

  lemma RoomEnds(dest: nat, size: int)
    requires InRegion(dest) && Tame(size) && Room(dest, size) > 0
    ensures 0 <= size && dest + Room(dest, size) == APPLICATION_ADDRESS + Rounded(size)
  {
  }

  lemma PageBounds(dest: nat, a: nat, k: nat)
    requires APPLICATION_ADDRESS <= dest <= a < APPLICATION_ADDRESS + PAGE_SIZE * k
    ensures PageOf(dest) <= PageOf(a) < PageOf(dest) + k
  {
  }

  lemma ErasedComplete(hw: Hardware, s: State, i: nat, n: nat)
    ensures Erased(hw, s, i, n).complete ==> s.complete
  {
  }

  lemma ClearAfterErase(hw: Hardware, g: State)
    requires InRegion(g.dest) && Tame(g.size)
    ensures var r := Erased(hw, g, 0, Pages(g.size)); r.complete ==> Clear(r.ops, g.dest, g.size)
  {
    hide Erased, Pages, Room, Rounded, PageOf, ErasedBefore;
    var r := Erased(hw, g, 0, Pages(g.size));
    if r.complete {
      forall a | g.dest <= a < g.dest + Room(g.dest, g.size)
        ensures ErasedBefore(r.ops, |r.ops|, PageOf(a))
      {
        RoomOnPages(g.dest, g.size, a);
        OneErase(hw, g, PageOf(a) - PageOf(g.dest));
      }
    }
  }

  /** Page `k` behind the destination's was erased. */
  lemma OneErase(hw: Hardware, g: State, k: nat)
    requires InRegion(g.dest) && 0 <= g.size <= FLASH_SIZE - 1 && k < Pages(g.size)
    requires Erased(hw, g, 0, Pages(g.size)).complete
    ensures var ops := Erased(hw, g, 0, Pages(g.size)).ops; ErasedBefore(ops, |ops|, PageOf(g.dest) + k)
  {
    hide Erased, Pages;
    var n := Pages(g.size);
    ErasedClears(hw, g, 0, n);
    PageAhead(g.dest, k);
    var ops := Erased(hw, g, 0, n).ops;
    assert ops[|g.ops| + k] == Erase(g.dest + PAGE_SIZE * k, true);
  }

  lemma SweptHeader(hw: Hardware, s: State, e: Event, h: History)
    requires Shaped(s) && s.result.None? && Genuine(e) && e.packet.Data? && InSequence(s, e) && s.packets == 0
    requires InRegion(s.dest) && Swept(s, h) && AllTame(h.sizes)
    ensures var t := Step(hw, s, e);
            && (t.complete ==> ErasedFirst(t.ops))
            && (t.complete && t.result.None? && Tame(t.size) ==> Clear(t.ops, t.dest, t.size))
  {
    hide Erased, Pages, Room, ErasedFirst, Clear, Tame, InRegion, Converted, NameText, FieldText;
    var g := Headed(s.(errors := 0), e.buf);
    var n := Pages(g.size);
    var more := ErasedOps(hw, g, 0, n);
    ErasedComplete(hw, g, 0, n);
    if s.complete {
      SweptErases(s.ops, more);
    }
    if Tame(g.size) {
      ClearAfterErase(hw, g);
    }
  }

  lemma SweptData(hw: Hardware, s: State, e: Event, h: History)
    requires Shaped(s) && s.result.None? && Genuine(e) && e.packet.Data? && InSequence(s, e) && s.packets != 0
    requires InRegion(s.dest) && Tame(s.size) && h.open && Swept(s, h) && AllTame(h.sizes)
    ensures var t := Step(hw, s, e);
            t.complete ==> ErasedFirst(t.ops) && (t.result.None? ==> Clear(t.ops, t.dest, t.size))
  {
    hide Step, Programmed, ErasedFirst, Clear, Tame, InRegion, Room;
    var data := DataWrites(hw, s, e);
    OnlyBreaks(hw, s, e);
    if s.complete {
      SweptWrites(s.ops, s.dest, s.size, data);
    }
  }

  lemma SweptIdle(hw: Hardware, s: State, e: Event, h: History)
    requires Shaped(s) && s.result.None? && Genuine(e) && Swept(s, h)
    requires e.packet.Data? ==> !InSequence(s, e)
    ensures Swept(Step(hw, s, e), Observe(s, e, Step(hw, s, e), h))
  {
    hide AcceptHeader, AcceptData, ErasedFirst, Clear, Tame;
  }

  lemma SweptStep(hw: Hardware, s: State, e: Event, h: History)
    requires Shaped(s) && s.result.None? && Genuine(e) && Ordered(s, h) && Imaged(s, h) && Swept(s, h)
    ensures Swept(Step(hw, s, e), Observe(s, e, Step(hw, s, e), h))
  {
    hide Step, ErasedFirst, Clear, Tame, InRegion, Kept, Content;
    if !e.packet.Data? || !InSequence(s, e) {
      SweptIdle(hw, s, e, h);
    } else {
      var t := Step(hw, s, e);
      var g := Observe(s, e, t, h);
      TameBefore(hw, s, e, h);
      if AllTame(g.sizes) {
        if s.packets == 0 {
          SweptHeader(hw, s, e, h);
          if t.result.None? {
            NewFile(hw, s, e, h);
            LastTame(h.sizes, t.size);
          }
        } else {
          SweptData(hw, s, e, h);
        }
      }
    }
  }

  /** Erase before program over whole sessions, any number of files: as long as FLASHStatus is COMPLETE and
      every announced size is tame, every word written, the one that failed to verify included, is on a
      page whose erase completed before. */
  lemma {:induction false} SweptHolds(hw: Hardware, s: State, es: seq<Event>)
    requires Fresh(s) && AllGenuine(es)
    ensures Swept(Exec(hw, s, es), Log(hw, s, es))
    decreases |es|
  {
    if es == [] {
    } else {
      hide Swept, Imaged, Step, Balanced, Budgeted, Explained;
      SweptHolds(hw, s, es[..|es| - 1]);
      var t := Exec(hw, s, es[..|es| - 1]);
      if t.result.None? {
        BooksHold(hw, s, es[..|es| - 1]);
        ImageHolds(hw, s, es[..|es| - 1]);
        SweptStep(hw, t, es[|es| - 1], Log(hw, s, es[..|es| - 1]));
      }
    }
  }
}
