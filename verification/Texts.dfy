/** What `file_name`, `file_size` and `tab_1024` hold in every reachable state. */
module Texts {
  import opened Machine
  import opened Framing
  import opened Header
  import opened Flash
  import opened Session
  import opened Ledger
  import opened FileImage

  /** The name array shows the text at the start of a filename packet: every byte up to the first NUL, as far as
      there is room for it. */
  ghost predicate Shows(name: seq<byte>, payload: seq<byte>) {
    |name| == FILE_NAME_LENGTH + 1
    && forall k :: 0 <= k < |payload| && k < FILE_NAME_LENGTH && 0 !in payload[..k] ==> name[k] == payload[k]
  }

  /** The payload of the data packet that came last for the latest file. */
  function Latest(h: History): seq<byte> {
    if h.broken != [] then h.broken else if |h.taken| > 1 then h.taken[|h.taken| - 1].payload else []
  }

  /** No name is copied before a filename packet comes, and then it stays, with the size text, until the next one,
      also when the session has returned. The RAM buffer has the last data packet. */
  ghost predicate Titled(start: State, s: State, h: History)
    requires Shaped(start) && Shaped(s)
  {
    && (s.size < FLASH_SIZE ==>
          if h.taken == [] then s.name == start.name && s.field == start.field
          else s.name == h.base.name && s.field == h.base.field)
    && (h.taken != [] ==> Shaped(h.base) && Shows(h.base.name, h.taken[0].payload))
    && |h.sizes| <= h.total && (h.total == |h.sizes| && h.broken == [] ==> s.ram == start.ram)
    && Latest(h) <= s.ram
  }

  lemma HeadedShows(s: State, buf: seq<byte>, len: nat)
    requires Shaped(s) && |buf| == PACKET_BUFFER && PACKET_HEADER + len <= PACKET_BUFFER
    ensures Shows(Headed(s, buf).name, buf[PACKET_HEADER..PACKET_HEADER + len])
  {
    var name, n := Headed(s, buf).name, NameLength(buf);
    var payload := buf[PACKET_HEADER..PACKET_HEADER + len];
    assert forall k :: n < k <= |payload| && n < FILE_NAME_LENGTH ==> payload[..k][n] == 0;
  }

  /** The texts after a filename packet that is taken, and what it leaves alone. */
  lemma TakenTexts(hw: Hardware, s: State, e: Event)
    requires Shaped(s) && s.result.None? && Genuine(e) && e.packet.Data? && InSequence(s, e) && s.packets == 0
    ensures var t := Step(hw, s, e);
            && t.ram == s.ram
            && (t.result.None? ==> Shows(t.name, Payload(e)) && !IsClosing(s, e))
            && (t.result.Some? && t.size < FLASH_SIZE ==> t.name == s.name && t.field == s.field)
  {
    hide Erased, Pages, Converted, NameText, FieldText, Shows;
    HeadedShows(s.(errors := 0), e.buf, e.packet.length);
  }

  /** A data packet in sequence goes to the front of the RAM buffer; the bytes behind it stay. */
  lemma DataTexts(hw: Hardware, s: State, e: Event)
    requires Shaped(s) && s.result.None? && Genuine(e) && e.packet.Data? && InSequence(s, e) && s.packets != 0
    ensures var t := Step(hw, s, e);
            t.name == s.name && t.field == s.field && t.ram == Payload(e) + s.ram[e.packet.length..] && t.size == s.size
  {
    hide Step, Programmed;
    DataStepIs(hw, s, e);
  }

  lemma IdleTexts(hw: Hardware, s: State, e: Event)
    requires Shaped(s) && s.result.None? && Genuine(e) && (e.packet.Data? ==> !InSequence(s, e))
    ensures var t := Step(hw, s, e);
            t.name == s.name && t.field == s.field && t.ram == s.ram && t.size == s.size
  {
    hide AcceptHeader, AcceptData;
  }

  lemma TitledStep(hw: Hardware, start: State, s: State, e: Event, h: History)
    requires Shaped(start) && Shaped(s) && s.result.None? && Genuine(e) && Books(s, h) && Imaged(s, h) && Titled(start, s, h)
    ensures Titled(start, Step(hw, s, e), Observe(s, e, Step(hw, s, e), h))
  {
    hide Step, Observe, Shows, Kept, Content, AllTame, Balanced, Budgeted, Numbered;
    var t := Step(hw, s, e);
    if !e.packet.Data? || !InSequence(s, e) {
      IdleTexts(hw, s, e);
      IdleHistory(s, e, t, h);
      SameTotal(s, e, t, h);
    } else if s.packets != 0 {
      DataTexts(hw, s, e);
      TakenObserved(hw, s, e, h);
    } else {
      TakenTexts(hw, s, e);
      if t.result.Some? {
        NoFile(hw, s, e, h);
        ClosedTotal(s, e, t, h);
      } else {
        NewFile(hw, s, e, h);
        NewTotal(s, e, t, h);
      }
    }
  }

  lemma SameTotal(s: State, e: Event, t: State, h: History)
    requires Genuine(e) && (e.packet.Data? ==> !InSequence(s, e))
    ensures Observe(s, e, t, h).total == h.total
  {
  }

  lemma ClosedTotal(s: State, e: Event, t: State, h: History)
    requires Genuine(e) && e.packet.Data? && InSequence(s, e) && s.packets == 0 && s.result.None? && t.result.Some?
    ensures Observe(s, e, t, h).total == h.total
  {
  }

  lemma NewTotal(s: State, e: Event, t: State, h: History)
    requires Genuine(e) && e.packet.Data? && InSequence(s, e) && s.packets == 0 && s.result.None? && t.result.None?
    requires !IsClosing(s, e)
    ensures Observe(s, e, t, h).total == h.total + 1
  {
  }

  lemma {:induction false} TitledHolds(hw: Hardware, s: State, es: seq<Event>)
    requires Fresh(s) && AllGenuine(es)
    ensures Titled(s, Exec(hw, s, es), Log(hw, s, es))
    decreases |es|
  {
    if es == [] {
    } else {
      TitledHolds(hw, s, es[..|es| - 1]);
      hide Titled, Step, Imaged, Ordered, Balanced, Budgeted, Explained;
      var t := Exec(hw, s, es[..|es| - 1]);
      if t.result.None? {
        BooksHold(hw, s, es[..|es| - 1]);
        ImageHolds(hw, s, es[..|es| - 1]);
        TitledStep(hw, s, t, es[|es| - 1], Log(hw, s, es[..|es| - 1]));
      }
    }
  }
}
