/** What a TCP netconn accounts for: the packets waiting in its mailbox, the number of bytes that it says
    can be read, and the window credit that it gives back. */
module Accounts {
  import opened Machine
  import opened Pbufs

  /** A message in the mailbox: NULL, which says that the peer is done, or a packet. */
  datatype Message = Closed | Segment(bytes: seq<byte>)

  /** Conversion to `s16_t`. */
  function ToS16(x: int): int { (x + 0x8000) % 0x1_0000 - 0x8000 }

  /** `tot_len` of a packet, as a message counts. */
  function Counted(m: Message): u16 {
    if m.Closed? then 0 else |m.bytes| % 0x1_0000
  }

  function Bytes(m: Message): seq<byte> {
    if m.Closed? then [] else m.bytes
  }

  /** The mailbox, `recv_avail`, and what has happened so far: the bytes posted, the packets returned, the
      credit passed on, and the total length of the packets for which the mailbox had no room. */
  datatype Account = Account(queue: seq<Message>, avail: int, posted: seq<byte>, taken: seq<seq<byte>>, credit: nat, refused: nat)

  const OPENED: Account := Account([], 0, [], [], 0, 0)

  /** The stack posts a message. */
  function Post(a: Account, m: Message, room: bool): Account {
    var b := a.(avail := ToS16(a.avail + Counted(m)));
    if room then b.(queue := a.queue + [m], posted := a.posted + Bytes(m))
    else b.(refused := a.refused + Counted(m))
  }

  /** The application takes the first message. */
  function Take(a: Account): Account
    requires a.queue != []
  {
    var m := a.queue[0];
    var b := a.(queue := a.queue[1..], avail := ToS16(a.avail - Counted(m)));
    if m.Closed? then b else b.(taken := a.taken + [m.bytes], credit := a.credit + Counted(m))
  }

  /** The total lengths in the mailbox. */
  function Due(q: seq<Message>): nat {
    if q == [] then 0 else Counted(q[0]) + Due(q[1..])
  }

  /** The bytes in the mailbox. */
  function Waiting(q: seq<Message>): seq<byte> {
    if q == [] then [] else Bytes(q[0]) + Waiting(q[1..])
  }

  /** The credit for some packets. */
  function Credit(ps: seq<seq<byte>>): nat {
    if ps == [] then 0 else |ps[0]| % 0x1_0000 + Credit(ps[1..])
  }

  /** `recv_avail` is, in 16 bits with a sign, what is due and what was refused; the bytes posted were
      returned or wait, in order; the credit is for the packets returned. */
  predicate Balanced(a: Account) {
    && a.avail == ToS16(Due(a.queue) + a.refused)
    && a.posted == Join(a.taken) + Waiting(a.queue)
    && a.credit == Credit(a.taken)
  }

  lemma {:induction false} DueMore(q: seq<Message>, m: Message)
    ensures Due(q + [m]) == Due(q) + Counted(m) && Waiting(q + [m]) == Waiting(q) + Bytes(m)
    decreases |q|
  {
    if q == [] {
      assert [m][1..] == [] && [] + [m] == [m];
    } else {
      assert (q + [m])[1..] == q[1..] + [m];
      DueMore(q[1..], m);
    }
  }

  lemma {:induction false} CreditMore(ps: seq<seq<byte>>, p: seq<byte>)
    ensures Credit(ps + [p]) == Credit(ps) + |p| % 0x1_0000
    decreases |ps|
  {
    if ps == [] {
      assert [p][1..] == [] && [] + [p] == [p];
    } else {
      assert (ps + [p])[1..] == ps[1..] + [p];
      CreditMore(ps[1..], p);
    }
  }

  lemma Wraps(x: int, y: int)
    ensures ToS16(ToS16(x) + y) == ToS16(x + y)
  {
  }

  /** `recv_avail` is an `s16_t`. */
  lemma AvailFits(a: Account)
    requires Balanced(a)
    ensures ToS16(a.avail + 0) == ToS16(a.avail - 0) == a.avail
  {
  }

  lemma PostBalanced(a: Account, m: Message, room: bool)
    requires Balanced(a)
    ensures Balanced(Post(a, m, room))
  {
    DueMore(a.queue, m);
    Wraps(Due(a.queue) + a.refused, Counted(m));
    hide ToS16, Due, Waiting, Counted, Bytes;
  }

  lemma TakeBalanced(a: Account)
    requires Balanced(a) && a.queue != []
    ensures Balanced(Take(a))
  {
    hide ToS16, Credit, Join, Counted, Bytes;
    var m := a.queue[0];
    var k: int := Counted(m);
    Wraps(Due(a.queue) + a.refused, -k);
    if m.Segment? {
      CreditMore(a.taken, m.bytes);
      JoinOne(a.taken, m.bytes);
    }
    DataCounts(m);
  }

  lemma DataCounts(m: Message)
    ensures if m.Segment? then Counted(m) == |m.bytes| % 0x1_0000 && Bytes(m) == m.bytes else Counted(m) == 0 && Bytes(m) == []
  {
  }

  /** What a netconn meets: a message posted by the stack, with or without room for it, or a call of
      `netconn_recv` that gets to its mailbox (and waits when there is nothing in it). */
  datatype Event = Posted(message: Message, room: bool) | Received

  function Handle(a: Account, e: Event): Account {
    match e
    case Posted(m, room) => Post(a, m, room)
    case Received => if a.queue == [] then a else Take(a)
  }

  function Reached(es: seq<Event>): Account {
    if es == [] then OPENED else Handle(Reached(es[..|es| - 1]), es[|es| - 1])
  }

  lemma OpenedBalanced()
    ensures Balanced(OPENED)
  {
  }

  /** Over any interleaving of posts and receptions the account is balanced. */
  lemma {:induction false} AlwaysBalanced(es: seq<Event>)
    ensures Balanced(Reached(es))
    decreases |es|
  {
    if es != [] {
      AlwaysBalanced(es[..|es| - 1]);
      hide Balanced, Post, Take;
      match es[|es| - 1]
      case Posted(m, room) => PostBalanced(Reached(es[..|es| - 1]), m, room);
      case Received =>
        if Reached(es[..|es| - 1]).queue != [] {
          TakeBalanced(Reached(es[..|es| - 1]));
        }
    }
  }

  /** `recv_avail` is what is due exactly when that fits in an `s16_t` and what was refused does not show. */
  lemma AvailExact(a: Account)
    requires Balanced(a)
    ensures a.avail == Due(a.queue) <==> Due(a.queue) < 0x8000 && a.refused % 0x1_0000 == 0
  {
  }

  predicate Short(ps: seq<seq<byte>>) {
    forall i :: 0 <= i < |ps| ==> |ps[i]| < 0x1_0000
  }

  lemma {:induction false} CreditOf(ps: seq<seq<byte>>)
    ensures Credit(ps) <= |Join(ps)|
    ensures Credit(ps) == |Join(ps)| <==> Short(ps)
    decreases |ps|
  {
    if ps != [] {
      CreditOf(ps[1..]);
      assert Short(ps) <==> |ps[0]| < 0x1_0000 && Short(ps[1..]) by {
        assert forall i :: 0 < i < |ps| ==> ps[i] == ps[1..][i - 1];
      }
    }
  }

  /** The credit is the number of bytes returned exactly when every packet is shorter than 65536 bytes, and
      never more. */
  lemma CreditExact(a: Account)
    requires Balanced(a)
    ensures a.credit <= |Join(a.taken)|
    ensures a.credit == |Join(a.taken)| <==> Short(a.taken)
  {
    CreditOf(a.taken);
  }

  /** The bytes returned so far are the first ones posted, and all of them when nothing waits. */
  lemma StreamInOrder(a: Account)
    requires Balanced(a)
    ensures Join(a.taken) <= a.posted
    ensures a.queue == [] ==> Join(a.taken) == a.posted
  {
  }

  /** The total length of the packets for which there was no room. */
  function Refusals(es: seq<Event>): nat {
    if es == [] then 0
    else Refusals(es[..|es| - 1])
         + match es[|es| - 1] { case Posted(m, room) => if room then 0 else Counted(m) case Received => 0 }
  }

  lemma {:induction false} RefusedAre(es: seq<Event>)
    ensures Reached(es).refused == Refusals(es)
    decreases |es|
  {
    if es != [] {
      RefusedAre(es[..|es| - 1]);
      hide ToS16, Counted;
    }
  }

  /** After any interleaving of posts and receptions, `recv_avail` is the total length in the mailbox exactly
      when that fits in an `s16_t` and the packets refused add up to a multiple of 65536. */
  lemma AvailAfter(es: seq<Event>)
    ensures var a := Reached(es);
            a.avail == Due(a.queue) <==> Due(a.queue) < 0x8000 && Refusals(es) % 0x1_0000 == 0
  {
    AlwaysBalanced(es);
    RefusedAre(es);
    AvailExact(Reached(es));
  }

  /** One packet without room leaves an empty netconn that claims to have bytes. */
  lemma RefusedClaims(d: seq<byte>)
    requires 0 < |d| < 0x8000
    ensures var a := Reached([Posted(Segment(d), false)]); a.queue == [] && a.avail == |d|
  {
    assert [Posted(Segment(d), false)][..0] == [];
  }
}
