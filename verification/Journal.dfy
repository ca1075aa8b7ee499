/** The log of flash operations in every reachable state, for any announced sizes: flash is what the log makes of
    its old contents, erases stop at the first that fails, and programs stop at the first that is not read back. */
module Journal {
  import opened Machine
  import opened Framing
  import opened Header
  import opened Flash
  import opened Session
  import opened Ledger
  import opened FileImage

  /** Flash after the operations from number `from` on. */
  ghost function Replayed(hw: Hardware, flash: Words, ops: seq<FlashOp>, from: nat): (r: Words)
    requires from <= |ops|
    ensures r.Keys == flash.Keys
    decreases |ops|
  {
    if from == |ops| then flash
    else
      var k := |ops| - 1;
      var r := Replayed(hw, flash, ops[..k], from);
      match ops[k]
      case Erase(page, _) => AfterErase(hw, r, k, page)
      case Program(addr, _) => AfterProgram(hw, r, k, addr)
  }

  /** An operation that may change the word at `a`. */
  predicate Touches(op: FlashOp, a: nat) {
    match op
    case Erase(page, _) => PageOf(page) == PageOf(a)
    case Program(addr, _) => addr == a
  }

  /** None of the operations from number `from` on may change the word at `a`. */
  ghost predicate Spared(ops: seq<FlashOp>, from: nat, a: nat) {
    forall j :: from <= j < |ops| ==> !Touches(ops[j], a)
  }

  /** A word that no operation touches keeps its value. */
  lemma {:induction false} SparedSame(hw: Hardware, flash: Words, ops: seq<FlashOp>, from: nat, a: nat)
    requires from <= |ops| && a in flash && Spared(ops, from, a)
    ensures Replayed(hw, flash, ops, from)[a] == flash[a]
    decreases |ops|
  {
    if from < |ops| {
      SparedSame(hw, flash, ops[..|ops| - 1], from, a);
      assert !Touches(ops[|ops| - 1], a);
    }
  }

  lemma {:induction false} ReplayedOn(hw: Hardware, flash: Words, ops: seq<FlashOp>, from: nat, mid: nat)
    requires from <= mid <= |ops|
    ensures Replayed(hw, Replayed(hw, flash, ops[..mid], from), ops, mid) == Replayed(hw, flash, ops, from)
    decreases |ops|
  {
    if mid < |ops| {
      assert ops[..|ops| - 1][..mid] == ops[..mid];
      ReplayedOn(hw, flash, ops[..|ops| - 1], from, mid);
    } else {
      assert ops[..mid] == ops;
    }
  }

  /** What reading `a` gives right after program number `k` of it. */
  function ReadBack(hw: Hardware, flash: Words, k: nat, a: word): word {
    if a in flash then hw.left(k, a) else hw.bus(k, a)
  }

  ghost predicate AllDone(ops: seq<FlashOp>) {
    forall j :: 0 <= j < |ops| && ops[j].Erase? ==> ops[j].done
  }

  /** The log against the device. Each erase is recorded as the device ended it; FLASHStatus is COMPLETE as long as
      it was at the start and no erase failed; no erase follows one that failed, and there is none when it was not
      COMPLETE at the start. */
  ghost predicate ErasesStop(hw: Hardware, start: State, s: State) {
    && (s.complete <==> start.complete && AllDone(s.ops))
    && (forall j :: 0 <= j < |s.ops| && s.ops[j].Erase? ==> s.ops[j].done == hw.completes(j, s.ops[j].page))
    && (forall i, j :: 0 <= i < j < |s.ops| && s.ops[i].Erase? && !s.ops[i].done ==> !s.ops[j].Erase?)
    && (!start.complete ==> forall j :: 0 <= j < |s.ops| ==> !s.ops[j].Erase?)
  }

  /** Every word programmed was read back as it was written, except the last one of a session that ended so. */
  ghost predicate ReadsBack(hw: Hardware, flash: Words, ops: seq<FlashOp>, broken: bool) {
    && (broken ==> ops != [] && ops[|ops| - 1].Program?)
    && forall j :: 0 <= j < |ops| && ops[j].Program? ==>
         (ReadBack(hw, flash, j, ops[j].addr) == ops[j].data <==> !(broken && j == |ops| - 1))
  }

  /** Flash is the old contents with the operations since applied in turn. */
  ghost predicate Follows(hw: Hardware, s: State, t: State) {
    s.ops <= t.ops && t.flash == Replayed(hw, s.flash, t.ops, |s.ops|)
  }

  lemma FollowsSame(hw: Hardware, s: State, t: State)
    requires t.ops == s.ops && t.flash == s.flash
    ensures Follows(hw, s, t)
  {
  }

  lemma FollowsOne(hw: Hardware, s: State, t: State, op: FlashOp)
    requires t.ops == s.ops + [op]
    requires match op
             case Erase(page, _) => t.flash == AfterErase(hw, s.flash, |s.ops|, page)
             case Program(addr, _) => t.flash == AfterProgram(hw, s.flash, |s.ops|, addr)
    ensures Follows(hw, s, t)
  {
    assert t.ops[..|s.ops|] == s.ops;
    assert Replayed(hw, s.flash, s.ops, |s.ops|) == s.flash;
  }

  lemma FollowsOn(hw: Hardware, s: State, t: State, u: State)
    requires Follows(hw, s, t) && Follows(hw, t, u)
    ensures Follows(hw, s, u)
  {
    assert u.ops[..|t.ops|] == t.ops;
    ReplayedOn(hw, s.flash, u.ops, |s.ops|, |t.ops|);
  }

  // ---------------------------------------------------------------------------------------------
  // The two loops

  lemma EraseNoted(hw: Hardware, start: State, s: State, t: State, page: word)
    requires ErasesStop(hw, start, s) && s.complete
    requires t.complete == hw.completes(|s.ops|, page) && t.ops == s.ops + [Erase(page, t.complete)]
    ensures ErasesStop(hw, start, t)
  {
    assert t.complete ==> AllDone(t.ops);
    assert t.ops[|s.ops|] == Erase(page, t.complete);
    assert forall j :: 0 <= j < |s.ops| ==> t.ops[j] == s.ops[j];
  }

  lemma MoreReadBack(hw: Hardware, flash: Words, ops: seq<FlashOp>, op: FlashOp, broken: bool)
    requires ReadsBack(hw, flash, ops, false)
    requires op.Program? ==> (ReadBack(hw, flash, |ops|, op.addr) == op.data <==> !broken)
    requires op.Erase? ==> !broken
    ensures ReadsBack(hw, flash, ops + [op], broken)
  {
  }

  lemma {:induction false} EraseLoop(hw: Hardware, start: State, s: State, i: nat, n: nat)
    requires ErasesStop(hw, start, s) && ReadsBack(hw, start.flash, s.ops, false)
    ensures var r := Erased(hw, s, i, n);
            Follows(hw, s, r) && ErasesStop(hw, start, r) && ReadsBack(hw, start.flash, r.ops, false)
    decreases n - i
  {
    hide ToU32, AfterErase, ErasesStop, ReadsBack, Follows;
    if i < n && s.complete {
      var page := ToU32(s.dest + PAGE_SIZE * i);
      var done := hw.completes(|s.ops|, page);
      var t := s.(complete := done, flash := AfterErase(hw, s.flash, |s.ops|, page), ops := s.ops + [Erase(page, done)]);
      FollowsOne(hw, s, t, Erase(page, done));
      EraseNoted(hw, start, s, t, page);
      MoreReadBack(hw, start.flash, s.ops, Erase(page, done), false);
      EraseLoop(hw, start, t, i + 1, n);
      FollowsOn(hw, s, t, Erased(hw, t, i + 1, n));
    } else {
      FollowsSame(hw, s, s);
    }
  }

  lemma OneProgram(hw: Hardware, start: State, s: State, data: word)
    requires s.result.None? && ErasesStop(hw, start, s) && ReadsBack(hw, start.flash, s.ops, false) && s.flash.Keys == start.flash.Keys
    ensures var r := ProgramOne(hw, s, data);
            && Follows(hw, s, r) && ErasesStop(hw, start, r) && ReadsBack(hw, start.flash, r.ops, r.result.Some?)
            && r.complete == s.complete
  {
    hide Follows, ReadsBack;
    var r := ProgramOne(hw, s, data);
    var op := Program(s.dest, data);
    FollowsOne(hw, s, r, op);
    MoreReadBack(hw, start.flash, s.ops, op, r.result.Some?);
    assert r.ops[|s.ops|] == op && forall j :: 0 <= j < |s.ops| ==> r.ops[j] == s.ops[j];
    assert AllDone(r.ops) ==> AllDone(s.ops) by {
      assert forall j :: 0 <= j < |s.ops| ==> s.ops[j] == r.ops[j];
    }
  }

  lemma {:induction false} ProgramLoop(hw: Hardware, start: State, s: State, j: nat, n: nat)
    requires |s.ram| == PACKET_1K_SIZE && n <= PACKET_1K_SIZE && j % 4 == n % 4 == 0
    requires s.result.None? && ErasesStop(hw, start, s) && ReadsBack(hw, start.flash, s.ops, false) && s.flash.Keys == start.flash.Keys
    ensures var r := Programmed(hw, s, j, n);
            Follows(hw, s, r) && ErasesStop(hw, start, r) && ReadsBack(hw, start.flash, r.ops, r.result.Some?)
    decreases |s.ram| - j
  {
    hide WordAt, ProgramOne, Limit, ErasesStop, ReadsBack, Follows;
    if j < n && s.dest < Limit(s.size) {
      var t := ProgramOne(hw, s, WordAt(s.ram, j));
      OneProgram(hw, start, s, WordAt(s.ram, j));
      if t.result.None? {
        ProgramLoop(hw, start, t, j + 4, n);
        FollowsOn(hw, s, t, Programmed(hw, t, j + 4, n));
      } else {
        assert Programmed(hw, t, j + 4, n) == t;
      }
    } else {
      FollowsSame(hw, s, s);
    }
  }

  // ---------------------------------------------------------------------------------------------
  // Every run

  /** What a filename packet that is taken does to flash, log and status is what its erase loop does. */
  lemma HeaderIsErased(hw: Hardware, s: State, e: Event)
    requires Shaped(s) && s.result.None? && Genuine(e) && e.packet.Data? && InSequence(s, e) && s.packets == 0
    requires Step(hw, s, e).result.None?
    ensures var g, t := Headed(s.(errors := 0), e.buf), Step(hw, s, e);
            var r := Erased(hw, g, 0, Pages(g.size));
            && g.dest == s.dest && g.flash == s.flash && g.ops == s.ops && g.complete == s.complete && g.size == t.size
            && t.flash == r.flash && t.ops == r.ops && t.complete == r.complete && t.dest == s.dest
  {
    hide Erased, Pages, Converted, NameText, FieldText;
  }

  ghost predicate Journaled(hw: Hardware, start: State, s: State, h: History) {
    Follows(hw, start, s) && ErasesStop(hw, start, s) && ReadsBack(hw, start.flash, s.ops, h.broken != [])
  }

  lemma FollowsLike(hw: Hardware, g: State, r: State, s: State, t: State)
    requires Follows(hw, g, r) && s.ops == g.ops && s.flash == g.flash && t.ops == r.ops && t.flash == r.flash
    ensures Follows(hw, s, t)
  {
  }

  lemma StopLike(hw: Hardware, start: State, s: State, t: State)
    requires ErasesStop(hw, start, s) && t.ops == s.ops && t.complete == s.complete
    ensures ErasesStop(hw, start, t)
  {
  }

  lemma JournaledHeader(hw: Hardware, start: State, s: State, e: Event)
    requires Shaped(s) && s.result.None? && Genuine(e) && e.packet.Data? && InSequence(s, e) && s.packets == 0
    requires Step(hw, s, e).result.None? && ErasesStop(hw, start, s) && ReadsBack(hw, start.flash, s.ops, false)
    ensures var t := Step(hw, s, e); Follows(hw, s, t) && ErasesStop(hw, start, t) && ReadsBack(hw, start.flash, t.ops, false)
  {
    hide Step, Erased, Headed, Pages, ErasesStop, ReadsBack, Follows;
    var g, t := Headed(s.(errors := 0), e.buf), Step(hw, s, e);
    var r := Erased(hw, g, 0, Pages(g.size));
    HeaderIsErased(hw, s, e);
    StopLike(hw, start, s, g);
    EraseLoop(hw, start, g, 0, Pages(g.size));
    StopLike(hw, start, r, t);
    FollowsLike(hw, g, r, s, t);
  }

  lemma JournaledData(hw: Hardware, start: State, s: State, e: Event)
    requires Shaped(s) && s.result.None? && Genuine(e) && e.packet.Data? && InSequence(s, e) && s.packets != 0
    requires ErasesStop(hw, start, s) && ReadsBack(hw, start.flash, s.ops, false) && s.flash.Keys == start.flash.Keys
    ensures var t := Step(hw, s, e);
            Follows(hw, s, t) && ErasesStop(hw, start, t) && ReadsBack(hw, start.flash, t.ops, t.result.Some?)
  {
    hide Step, Programmed, ErasesStop, ReadsBack, Follows;
    var c, t := Loaded(s, e), Step(hw, s, e);
    var r := Programmed(hw, c, 0, e.packet.length);
    DataStepIs(hw, s, e);
    StopLike(hw, start, s, c);
    ProgramLoop(hw, start, c, 0, e.packet.length);
    StopLike(hw, start, r, t);
    FollowsLike(hw, c, r, s, t);
  }

  lemma FollowsKeys(hw: Hardware, s: State, t: State)
    requires Follows(hw, s, t)
    ensures t.flash.Keys == s.flash.Keys
  {
  }

  lemma JournaledStep(hw: Hardware, start: State, s: State, e: Event, h: History)
    requires Shaped(s) && s.result.None? && Genuine(e) && Books(s, h) && Journaled(hw, start, s, h)
    ensures Journaled(hw, start, Step(hw, s, e), Observe(s, e, Step(hw, s, e), h))
    ensures Follows(hw, s, Step(hw, s, e))
  {
    hide Step, Observe, Follows, ErasesStop, ReadsBack, Ordered, Balanced, Budgeted;
    var t := Step(hw, s, e);
    FollowsKeys(hw, start, s);
    if !e.packet.Data? || !InSequence(s, e) {
      IdleEffect(hw, s, e);
      IdleHistory(s, e, t, h);
      FollowsSame(hw, s, t);
      StopLike(hw, start, s, t);
    } else if s.packets != 0 {
      TakenObserved(hw, s, e, h);
      JournaledData(hw, start, s, e);
    } else if t.result.Some? {
      NoFile(hw, s, e, h);
      FollowsSame(hw, s, t);
      StopLike(hw, start, s, t);
    } else {
      NewFile(hw, s, e, h);
      JournaledHeader(hw, start, s, e);
    }
    FollowsOn(hw, start, s, t);
  }

  /** In every reachable state, for any sizes: flash is what the logged operations make of the contents at the
      start; the erases stop at the first that fails; every program but one that ended the session was read back. */
  lemma {:induction false} JournalHolds(hw: Hardware, s: State, es: seq<Event>)
    requires Fresh(s) && AllGenuine(es)
    ensures Journaled(hw, s, Exec(hw, s, es), Log(hw, s, es))
    decreases |es|
  {
    if es == [] {
      FollowsSame(hw, s, s);
    } else {
      hide Journaled, Step, Ordered, Balanced, Budgeted, Explained;
      JournalHolds(hw, s, es[..|es| - 1]);
      var t := Exec(hw, s, es[..|es| - 1]);
      if t.result.None? {
        BooksHold(hw, s, es[..|es| - 1]);
        JournaledStep(hw, s, t, es[|es| - 1], Log(hw, s, es[..|es| - 1]));
      }
    }
  }

  /** In every reachable state a word that no operation of the session touches holds what it held before. */
  lemma UntouchedWords(hw: Hardware, s: State, es: seq<Event>, a: nat)
    requires Fresh(s) && AllGenuine(es) && a in s.flash && Spared(Exec(hw, s, es).ops, 0, a)
    ensures a in Exec(hw, s, es).flash && Exec(hw, s, es).flash[a] == s.flash[a]
  {
    hide Exec, Log, ErasesStop, ReadsBack, Spared;
    JournalHolds(hw, s, es);
    SparedSame(hw, s.flash, Exec(hw, s, es).ops, 0, a);
  }
}
