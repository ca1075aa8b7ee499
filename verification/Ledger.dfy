/** What an observer of the wire and of the return value writes down about a session, and the
    bookkeeping that holds in every reachable state of every session. */
module Ledger {
  import opened Machine
  import opened Framing
  import opened Flash
  import opened Session

  /** A packet that the receiver took: its sequence byte and its payload. */
  datatype Taken = Taken(seqno: byte, payload: seq<byte>)

  /** A file of which at least the filename packet was taken: its packets, and the receiver after that one. */
  datatype File = File(taken: seq<Taken>, base: State)

  datatype History = History(
    taken: seq<Taken>,     // packets taken in the latest file, the filename packet first
    base: State,           // the receiver after that filename packet
    open: bool,            // the latest file goes on: no EOT has come for it
    done: seq<File>,       // the files that an EOT ended, in order
    sizes: seq<int>,       // sizes that the filename packets taken announced
    total: nat,            // packets taken in all files
    files: nat,            // EOT bytes received
    cancels: nat,          // CA-CA pairs received
    aborts: nat,           // abort keys received
    closings: nat,         // empty filename packets
    refused: nat,          // packets whose sequence byte is not the expected one
    faults: nat,           // failed receptions
    streak: nat,           // failed receptions in a row, counted once a packet was taken
    broken: seq<byte>)     // payload of the data packet that ended the session

  function NewBooks(s: State): History {
    History([], s, false, [], [], 0, 0, 0, 0, 0, 0, 0, 0, [])
  }

  function Payload(e: Event): seq<byte>
    requires Genuine(e) && e.packet.Data?
  {
    e.buf[PACKET_HEADER..PACKET_HEADER + e.packet.length]
  }

  /** The sequence byte of `e` is the one that the receiver expects. */
  predicate InSequence(s: State, e: Event)
    requires Genuine(e)
  {
    e.buf[PACKET_SEQNO_INDEX] == s.packets % 0x100
  }

  /** The empty filename packet, which ends a session. */
  predicate IsClosing(s: State, e: Event)
    requires Genuine(e)
  {
    s.packets == 0 && e.buf[PACKET_HEADER] == 0
  }

  /** The entry for a packet `e` that moved the receiver from `s` to `t`. A packet in sequence is taken
      when the session goes on. */
  function Observe(s: State, e: Event, t: State, h: History): History
    requires Genuine(e)
  {
    if s.result.Some? then h
    else match e.packet
      case Failed => h.(faults := h.faults + 1, streak := if h.total > 0 then h.streak + 1 else 0)
      case UserAbort => h.(aborts := h.aborts + 1)
      case SenderAbort => h.(cancels := h.cancels + 1, streak := 0)
      case EndOfFile =>
        h.(files := h.files + 1, open := false, streak := 0,
           done := if h.open then h.done + [File(h.taken, h.base)] else h.done)
      case Data(n) =>
        if !InSequence(s, e) then h.(refused := h.refused + 1, streak := 0)
        else if IsClosing(s, e) then h.(closings := h.closings + 1, streak := 0)
        else if t.result.None? then
          var entry := Taken(e.buf[PACKET_SEQNO_INDEX], Payload(e));
          h.(total := h.total + 1, streak := 0, open := true,
             taken := if h.open then h.taken + [entry] else [entry],
             sizes := if h.open then h.sizes else h.sizes + [t.size],
             base := if h.open then h.base else t)
        else if s.packets == 0 then h.(streak := 0)
        else h.(streak := 0, broken := Payload(e))
  }

  ghost function Log(hw: Hardware, s: State, es: seq<Event>): History
    requires Shaped(s) && AllGenuine(es)
    decreases |es|
  {
    if es == [] then NewBooks(s)
    else
      var front := es[..|es| - 1];
      Observe(Exec(hw, s, front), es[|es| - 1], Exec(hw, s, es), Log(hw, s, front))
  }

  /** One more packet. */
  lemma Extended(hw: Hardware, s: State, es: seq<Event>, e: Event)
    requires Shaped(s) && AllGenuine(es) && Genuine(e)
    ensures AllGenuine(es + [e])
    ensures Exec(hw, s, es + [e]) == Next(hw, Exec(hw, s, es), e)
    ensures Log(hw, s, es + [e]) == Observe(Exec(hw, s, es), e, Exec(hw, s, es + [e]), Log(hw, s, es))
  {
    hide Next, Observe;
    assert (es + [e])[..|es|] == es;
  }

  /** The state in which `Ymodem_Receive` starts. */
  ghost predicate Fresh(s: State) {
    && Shaped(s) && s.packets == 0 && s.errors == 0 && !s.begun && s.size == 0 && s.result.None?
    && s.dest == APPLICATION_ADDRESS && s.ops == [] && s.replies == []
  }

  // ---------------------------------------------------------------------------------------------
  // Ordered acceptance

  /** Packet `k` of a file carries the low byte of `k`. */
  ghost predicate Numbered(taken: seq<Taken>) {
    forall k :: 0 <= k < |taken| ==> taken[k].seqno == k % 0x100
  }

  ghost predicate Ordered(s: State, h: History) {
    && s.packets == (if h.open then |h.taken| else 0) && |h.taken| <= h.total
    && (s.begun <==> h.total > 0) && (h.open ==> h.taken != []) && (h.taken == [] <==> h.total == 0) && (h.taken == [] <==> h.sizes == [])
    && Numbered(h.taken) && (forall i :: 0 <= i < |h.done| ==> Numbered(h.done[i].taken))
    && |h.sizes| == |h.done| + (if h.open then 1 else 0) && (h.files == 0 ==> h.done == [])
    && (!h.open && h.taken != [] ==> h.done != [] && h.done[|h.done| - 1] == File(h.taken, h.base))
  }

  function Count(b: byte, bs: seq<byte>): nat {
    if bs == [] then 0
    else Count(b, bs[..|bs| - 1]) + if bs[|bs| - 1] == b then 1 else 0
  }

  /** Two CA bytes at the end, none before. */
  ghost predicate EndsInAbort(replies: seq<byte>) {
    |replies| >= 2 && replies[|replies| - 2..] == [CA, CA] && Count(CA, replies) == 2
  }

  /** The replies sent, against the packets received. */
  ghost predicate Balanced(s: State, h: History) {
    && Count(ACK, s.replies) == h.total + h.files + h.cancels + h.closings
    && Count(NAK, s.replies) == h.refused
    && Count(CRC16, s.replies) == |h.sizes| + h.faults - (if h.streak > MAX_ERRORS then 1 else 0)
    && (Count(CA, s.replies) == 0 || (s.result.Some? && EndsInAbort(s.replies)))
  }

  /** The error count is the current run of failures; six of them end the session. */
  ghost predicate Budgeted(s: State, h: History) {
    && s.errors == h.streak && (h.total == 0 ==> h.streak == 0)
    && (s.result.None? ==> h.streak <= MAX_ERRORS)
    && (h.streak > MAX_ERRORS ==> h.streak == MAX_ERRORS + 1 && s.result == Some(0) && EndsInAbort(s.replies))
  }

  /** Why a session has returned, for each value: a sender's abort or six failures; an abort key; a size that
      does not fit; a word that failed to verify; or else an empty filename packet, and then it is the size. */
  ghost predicate Explained(s: State, h: History) {
    match s.result
    case None => h.cancels == 0 && h.aborts == 0 && h.closings == 0 && h.broken == []
    case Some(v) =>
      || (h.cancels == 1 && h.aborts == 0 && h.closings == 0 && h.broken == [] && v == 0)
      || (h.streak > MAX_ERRORS && h.cancels == 0 && h.aborts == 0 && h.closings == 0 && h.broken == [] && v == 0)
      || (h.aborts == 1 && h.cancels == 0 && h.closings == 0 && h.broken == [] && v == -3)
      || (h.closings == 1 && h.cancels == 0 && h.aborts == 0 && h.broken == [] && v == s.size && !h.open)
      || (h.broken != [] && h.cancels == 0 && h.aborts == 0 && h.closings == 0 && v == -2 && h.open)
      || (h.broken == [] && h.cancels == 0 && h.aborts == 0 && h.closings == 0 && v == -1 && s.size >= FLASH_SIZE && !h.open)
  }

  ghost predicate Books(s: State, h: History) {
    Ordered(s, h) && Balanced(s, h) && Budgeted(s, h) && Explained(s, h)
  }

  /** What a data packet does to everything but flash and buffers. */
  ghost predicate DataEffect(s: State, e: Event, t: State)
    requires Genuine(e)
  {
    var open := InSequence(s, e);
    && t.errors == 0
    && (!open ==> t == s.(errors := 0, replies := s.replies + [NAK]))
    && (open ==>
          || (t.result.None? && !IsClosing(s, e) && t.packets == s.packets + 1 && t.begun
              && t.replies == s.replies + if s.packets == 0 then [ACK, CRC16] else [ACK])
          || (t.result.Some? && t.packets == s.packets && t.begun == s.begun
              && t.replies == s.replies + (if IsClosing(s, e) then [ACK] else [CA, CA])
              && t.result == Some(if IsClosing(s, e) then t.size else if s.packets == 0 then -1 else -2)
              && (IsClosing(s, e) ==> t.size == s.size) && (s.packets == 0 && !IsClosing(s, e) ==> t.size >= FLASH_SIZE)))
  }

  lemma HeaderEffect(hw: Hardware, s: State, e: Event)
    requires Shaped(s) && s.result.None? && Genuine(e) && e.packet.Data?
    requires InSequence(s, e) && s.packets == 0
    ensures DataEffect(s, e, Step(hw, s, e))
  {
    hide Erased, AcceptData;
  }

  lemma PayloadEffect(hw: Hardware, s: State, e: Event)
    requires Shaped(s) && s.result.None? && Genuine(e) && e.packet.Data?
    requires InSequence(s, e) && s.packets != 0
    ensures DataEffect(s, e, Step(hw, s, e))
  {
    hide Programmed, AcceptHeader;
  }

  lemma DataStep(hw: Hardware, s: State, e: Event)
    requires Shaped(s) && s.result.None? && Genuine(e) && e.packet.Data?
    ensures DataEffect(s, e, Step(hw, s, e))
  {
    hide AcceptHeader, AcceptData;
    if InSequence(s, e) {
      hide DataEffect, Step;
      if s.packets == 0 {
        HeaderEffect(hw, s, e);
      } else {
        PayloadEffect(hw, s, e);
      }
    }
  }

  /** A packet with the wrong sequence byte changes nothing but the error count, and is answered
      with one NAK; no other packet is answered so. */
  lemma RefusedIffMismatch(hw: Hardware, s: State, e: Event)
    requires Shaped(s) && s.result.None? && Genuine(e) && e.packet.Data?
    ensures !InSequence(s, e)
            <==> Step(hw, s, e).replies == s.replies + [NAK]
    ensures !InSequence(s, e)
            ==> Step(hw, s, e) == s.(errors := 0, replies := s.replies + [NAK])
  {
    DataStep(hw, s, e);
    hide Step;
    assert (s.replies + [NAK])[|s.replies|] == NAK;
  }

  // ---------------------------------------------------------------------------------------------
  // Every run

  lemma Sent(bs: seq<byte>, c: byte)
    ensures forall b :: Count(b, bs + [c]) == Count(b, bs) + if b == c then 1 else 0
  {
    assert (bs + [c])[..|bs|] == bs;
  }

  lemma SentTwo(bs: seq<byte>, c: byte, d: byte)
    ensures forall b :: Count(b, bs + [c, d])
                        == Count(b, bs) + (if b == c then 1 else 0) + if b == d then 1 else 0
    ensures (bs + [c, d])[|bs|..] == [c, d]
  {
    Sent(bs, c);
    Sent(bs + [c], d);
    assert bs + [c] + [d] == bs + [c, d];
  }

  lemma OrderedData(s: State, e: Event, t: State, h: History)
    requires s.result.None? && Genuine(e) && e.packet.Data? && Ordered(s, h) && DataEffect(s, e, t)
    ensures Ordered(t, Observe(s, e, t, h))
  {
  }

  lemma BalancedData(s: State, e: Event, t: State, h: History)
    requires s.result.None? && Genuine(e) && e.packet.Data? && Books(s, h) && DataEffect(s, e, t)
    ensures Balanced(t, Observe(s, e, t, h))
  {
    hide Count;
    var r := s.replies;
    Sent(r, NAK);
    Sent(r, ACK);
    SentTwo(r, ACK, CRC16);
    SentTwo(r, CA, CA);
  }

  lemma BudgetedData(s: State, e: Event, t: State, h: History)
    requires s.result.None? && Genuine(e) && e.packet.Data? && Books(s, h) && DataEffect(s, e, t)
    ensures Budgeted(t, Observe(s, e, t, h))
  {
    hide Balanced;
  }

  lemma ExplainedData(s: State, e: Event, t: State, h: History)
    requires s.result.None? && Genuine(e) && e.packet.Data? && Books(s, h) && DataEffect(s, e, t)
    ensures Explained(t, Observe(s, e, t, h))
  {
    hide Balanced, Numbered;
  }

  lemma OrderedOther(hw: Hardware, s: State, e: Event, h: History)
    requires Shaped(s) && s.result.None? && Genuine(e) && Ordered(s, h) && !e.packet.Data?
    ensures Ordered(Step(hw, s, e), Observe(s, e, Step(hw, s, e), h))
  {
    hide AcceptHeader, AcceptData, Numbered;
    assert Numbered(h.taken);
  }

  lemma BalancedOther(hw: Hardware, s: State, e: Event, h: History)
    requires Shaped(s) && s.result.None? && Genuine(e) && Balanced(s, h) && Budgeted(s, h) && Explained(s, h) && !e.packet.Data?
    requires s.begun <==> h.total > 0
    ensures Balanced(Step(hw, s, e), Observe(s, e, Step(hw, s, e), h))
  {
    hide AcceptHeader, AcceptData, Count;
    Sent(s.replies, CRC16);
    Sent(s.replies, ACK);
    SentTwo(s.replies, CA, CA);
  }

  lemma BudgetedOther(hw: Hardware, s: State, e: Event, h: History)
    requires Shaped(s) && s.result.None? && Genuine(e) && Balanced(s, h) && Budgeted(s, h) && !e.packet.Data?
    requires s.begun <==> h.total > 0
    ensures Budgeted(Step(hw, s, e), Observe(s, e, Step(hw, s, e), h))
    ensures Explained(s, h) && (h.open ==> h.taken != []) ==> Explained(Step(hw, s, e), Observe(s, e, Step(hw, s, e), h))
  {
    hide AcceptHeader, AcceptData, Count;
    SentTwo(s.replies, CA, CA);
  }

  lemma BooksOther(s: State, h: History, hw: Hardware, e: Event)
    requires Shaped(s) && s.result.None? && Genuine(e) && Books(s, h) && !e.packet.Data?
    ensures Books(Step(hw, s, e), Observe(s, e, Step(hw, s, e), h))
  {
    hide Step, Observe, Balanced, Budgeted, Explained;
    OrderedOther(hw, s, e, h);
    BalancedOther(hw, s, e, h);
    BudgetedOther(hw, s, e, h);
  }

  lemma BooksStep(hw: Hardware, s: State, e: Event, h: History)
    requires Shaped(s) && s.result.None? && Genuine(e) && Books(s, h)
    ensures Books(Step(hw, s, e), Observe(s, e, Step(hw, s, e), h))
  {
    hide Step, Observe;
    if e.packet.Data? {
      var t := Step(hw, s, e);
      DataStep(hw, s, e);
      hide Ordered, Balanced, Budgeted, Explained, DataEffect;
      ExplainedData(s, e, t, h);
      OrderedData(s, e, t, h);
      BalancedData(s, e, t, h);
      BudgetedData(s, e, t, h);
    } else {
      BooksOther(s, h, hw, e);
    }
  }

  /** Ordered acceptance, reply conservation and the error budget, in every state that a session
      can reach, whatever is received and whatever the flash does. */
  lemma {:induction false} BooksHold(hw: Hardware, s: State, es: seq<Event>)
    requires Fresh(s) && AllGenuine(es)
    ensures Books(Exec(hw, s, es), Log(hw, s, es))
    decreases |es|
  {
    if es == [] {
    } else {
      BooksHold(hw, s, es[..|es| - 1]);
      var t := Exec(hw, s, es[..|es| - 1]);
      if t.result.None? {
        BooksStep(hw, t, es[|es| - 1], Log(hw, s, es[..|es| - 1]));
      }
    }
  }
}
