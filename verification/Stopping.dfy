/** The erases of one filename packet, in every run: which there are, and what they leave alone. */
module Stopping {
  import opened Machine
  import opened Framing
  import opened Header
  import opened Flash
  import opened Session
  import opened Ledger
  import opened Erasing
  import opened Sweeps
  import opened Journal

  /** Pages in a row from that of `dest` on: what is on none of them is spared. */
  lemma BehindIsSpared(ops: seq<FlashOp>, from: nat, dest: nat, a: nat)
    requires from <= |ops| && Lists(ops, from, dest, 0) && dest + PAGE_SIZE * (|ops| - from) <= 0x1_0000_0000
    requires !OnPages(a, dest, 0, |ops| - from)
    ensures Spared(ops, from, a)
  {
    forall j | from <= j < |ops|
      ensures !Touches(ops[j], a)
    {
      assert ErasesAt(ops[j], ToU32(dest + PAGE_SIZE * (j - from)));
      PageAhead(dest, j - from);
    }
  }

  /** New erases behind a log: how many there can be, and which may have failed. */
  lemma StopsAt(hw: Hardware, start: State, u: State, t: State)
    requires ErasesStop(hw, start, u) && ErasesStop(hw, start, t) && u.ops <= t.ops && Lists(t.ops, |u.ops|, u.dest, 0)
    ensures !u.complete ==> |t.ops| == |u.ops|
    ensures u.complete && !t.complete ==> |t.ops| > |u.ops| && t.ops[|t.ops| - 1].Erase? && !t.ops[|t.ops| - 1].done
    ensures forall j :: |u.ops| <= j < |t.ops| - 1 ==> t.ops[j].Erase? && t.ops[j].done
  {
    hide ToU32;
    assert forall j :: 0 <= j < |u.ops| ==> t.ops[j] == u.ops[j];
    forall j | |u.ops| <= j < |t.ops|
      ensures t.ops[j].Erase? && (j < |t.ops| - 1 ==> t.ops[j].done)
    {
      assert ErasesAt(t.ops[j], ToU32(u.dest + PAGE_SIZE * (j - |u.ops|)));
      if j < |t.ops| - 1 {
        assert ErasesAt(t.ops[j + 1], ToU32(u.dest + PAGE_SIZE * (j + 1 - |u.ops|)));
      }
    }
    assert |u.ops| < |t.ops| ==> t.ops[|u.ops|].Erase?;
    if u.complete && !t.complete {
      var i :| 0 <= i < |t.ops| && t.ops[i].Erase? && !t.ops[i].done;
    }
  }

  /** The erases of one filename packet, in any reachable state and for any size: pages in a row from that of the
      destination on, none unless FLASHStatus was COMPLETE, as many as the size asks for or up to the first that
      fails; words on none of these pages keep their value. */
  lemma HeaderErases(hw: Hardware, s: State, es: seq<Event>, e: Event)
    requires Fresh(s) && AllGenuine(es) && Genuine(e) && e.packet.Data?
    requires var u := Exec(hw, s, es);
             u.result.None? && InSequence(u, e) && u.packets == 0 && Step(hw, u, e).result.None?
    ensures var u, t := Exec(hw, s, es), Step(hw, Exec(hw, s, es), e);
            var k := |t.ops| - |u.ops|;
            && u.ops <= t.ops && k <= Pages(t.size) && Lists(t.ops, |u.ops|, u.dest, 0)
            && (!u.complete ==> k == 0)
            && (u.complete && !t.complete ==> k > 0 && t.ops[|t.ops| - 1].Erase? && !t.ops[|t.ops| - 1].done)
            && (t.complete ==> k == Pages(t.size))
            && (forall j :: |u.ops| <= j < |t.ops| - 1 ==> t.ops[j].Erase? && t.ops[j].done)
            && (u.dest + PAGE_SIZE * k <= 0x1_0000_0000 ==>
                  forall a :: a in u.flash && !OnPages(a, u.dest, 0, k) ==> a in t.flash && t.flash[a] == u.flash[a])
  {
    hide Exec, Log, Step, Observe, Erased, Headed, Pages, Spared, OnPages, Lists, ErasesStop, ReadsBack, Replayed, Ordered, Balanced, Budgeted;
    var u, t := Exec(hw, s, es), Step(hw, Exec(hw, s, es), e);
    BooksHold(hw, s, es);
    JournalHolds(hw, s, es);
    JournaledStep(hw, s, u, e, Log(hw, s, es));
    HeaderIsErased(hw, u, e);
    var g := Headed(u.(errors := 0), e.buf);
    ErasedList(hw, g, 0, Pages(g.size));
    StopsAt(hw, s, u, t);
    var k := |t.ops| - |u.ops|;
    if u.dest + PAGE_SIZE * k <= 0x1_0000_0000 {
      forall a | a in u.flash && !OnPages(a, u.dest, 0, k)
        ensures a in t.flash && t.flash[a] == u.flash[a]
      {
        BehindIsSpared(t.ops, |u.ops|, u.dest, a);
        SparedSame(hw, u.flash, t.ops, |u.ops|, a);
      }
    }
  }
}
