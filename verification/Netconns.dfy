/** `netconn_recv` on a TCP netconn, the posting of packets that it answers, and a reader of the stream. */
module Netconns {
  import opened Machine
  import opened Pbufs
  import opened Holders
  import opened Netbufs
  import opened Accounts

  const ERR_TIMEOUT: int := -3
  const ERR_RTE: int := -4
  const ERR_CLSD: int := -7
  const ERR_CONN: int := -8
  const ERR_VAL: int := -9

  /** `ERR_IS_FATAL` */
  predicate Fatal(e: int) { e < ERR_RTE }

  type Contents = map<Owner, seq<seq<byte>>>

  /** The packet that waits under the name `id`. */
  ghost function Named(m: Contents, id: nat): seq<byte> {
    if Loose(id) in m then Join(m[Loose(id)]) else []
  }

  /** What the pointers in a mailbox stand for. */
  ghost function Messages(m: Contents, mbox: seq<Ptr>, ids: seq<nat>): (q: seq<Message>)
    requires |ids| == |mbox|
    ensures |q| == |mbox|
    ensures forall i :: 0 <= i < |mbox| ==> q[i] == if mbox[i] == NULL then Closed else Segment(Named(m, ids[i]))
  {
    seq(|mbox|, i requires 0 <= i < |mbox| => if mbox[i] == NULL then Closed else Segment(Named(m, ids[i])))
  }

  /** The packets in a mailbox are held by it, each by one message. */
  ghost predicate Queued(chains: map<Owner, seq<Ptr>>, mbox: seq<Ptr>, ids: seq<nat>) {
    && |ids| == |mbox|
    && (forall i :: 0 <= i < |mbox| && mbox[i] != NULL ==> Loose(ids[i]) in chains && First(chains[Loose(ids[i])]) == mbox[i])
    && (forall i, j :: 0 <= i < j < |mbox| && mbox[i] != NULL && mbox[j] != NULL ==> ids[i] != ids[j])
  }

  /** What `o` had is with `u`. */
  ghost function Handed<T>(m: map<Owner, T>, o: Owner, u: Owner): map<Owner, T>
    requires o in m
  {
    (m - {o})[u := m[o]]
  }

  lemma HandedAway<T>(m: map<Owner, T>, o: Owner, u: Owner)
    requires o in m && u !in m
    ensures Handed(m, o, u) - {u} == m - {o}
  {
  }

  /** The packet named `id` is now the one of netbuf `n`; every other one stays. */
  ghost predicate GaveOut<T>(a: map<Owner, T>, b: map<Owner, T>, id: nat, n: Ptr) {
    Loose(id) in a && b == Handed(a, Loose(id), ByNetbuf(n))
  }

  /** An address that is no netbuf holds no packet. */
  lemma NoPacket(s: Store, n: Ptr)
    requires Good(s) && n !in s.netbufs
    ensures ByNetbuf(n) !in Packets(s) && ByNetbuf(n) !in s.chains
  {
  }

  /** The names of the first `k` packets of a mailbox. */
  ghost function Names(ids: seq<nat>, k: nat): set<Owner>
    requires k <= |ids|
  {
    if k == 0 then {} else Names(ids, k - 1) + {Loose(ids[k - 1])}
  }

  /** What is left of the names in a mailbox. */
  ghost predicate Suffix(ids: seq<nat>, all: seq<nat>) {
    |ids| <= |all| && ids == all[|all| - |ids|..]
  }

  lemma SuffixTail(all: seq<nat>, k: nat)
    requires k <= |all|
    ensures all[0..] == all && Suffix(all[k..], all) && (k < |all| ==> Suffix(all[k..][1..], all))
  {
  }

  /** Messages do not change with what is not in the mailbox. */
  lemma SameMessages(c: map<Owner, seq<Ptr>>, m: Contents, d: map<Owner, seq<Ptr>>, n: Contents, mbox: seq<Ptr>, ids: seq<nat>)
    requires Queued(c, mbox, ids)
    requires forall i :: 0 <= i < |mbox| && mbox[i] != NULL ==>
               var o := Loose(ids[i]); o in c && o in m && o in d && o in n && d[o] == c[o] && n[o] == m[o]
    ensures Queued(d, mbox, ids) && Messages(n, mbox, ids) == Messages(m, mbox, ids)
  {
  }

  lemma MorePosted(c: map<Owner, seq<Ptr>>, m: Contents, mbox: seq<Ptr>, ids: seq<nat>, p: Ptr, id: nat)
    requires Queued(c, mbox, ids) && (p != NULL ==> Loose(id) in c && First(c[Loose(id)]) == p && Spare(mbox, ids, id))
    ensures Queued(c, mbox + [p], ids + [id])
    ensures Messages(m, mbox + [p], ids + [id]) == Messages(m, mbox, ids) + [if p == NULL then Closed else Segment(Named(m, id))]
  {
    hide Named;
  }

  /** No message in the mailbox is the packet `id`. */
  ghost predicate Spare(mbox: seq<Ptr>, ids: seq<nat>, id: nat)
    requires |ids| == |mbox|
  {
    forall i :: 0 <= i < |mbox| && mbox[i] != NULL ==> ids[i] != id
  }

  /** The mailbox without its first message, whose packet is spare then. */
  lemma FirstTaken(c: map<Owner, seq<Ptr>>, m: Contents, mbox: seq<Ptr>, ids: seq<nat>)
    requires Queued(c, mbox, ids) && mbox != []
    ensures Queued(c, mbox[1..], ids[1..]) && Messages(m, mbox[1..], ids[1..]) == Messages(m, mbox, ids)[1..]
    ensures mbox[0] != NULL ==> Spare(mbox[1..], ids[1..], ids[0])
  {
    hide Named;
  }

  lemma FirstHeld(c: map<Owner, seq<Ptr>>, mbox: seq<Ptr>, ids: seq<nat>)
    requires Queued(c, mbox, ids) && mbox != [] && mbox[0] != NULL
    ensures Loose(ids[0]) in c && First(c[Loose(ids[0])]) == mbox[0]
  {
  }

  /** Taking the chain of a spare packet leaves the messages alone. */
  lemma SpareTaken(c: map<Owner, seq<Ptr>>, m: Contents, mbox: seq<Ptr>, ids: seq<nat>, id: nat, n: Ptr)
    requires Queued(c, mbox, ids) && Spare(mbox, ids, id) && Loose(id) in c && c.Keys == m.Keys
    ensures var d, k := (c - {Loose(id)})[ByNetbuf(n) := c[Loose(id)]], (m - {Loose(id)})[ByNetbuf(n) := m[Loose(id)]];
            Queued(d, mbox, ids) && Messages(k, mbox, ids) == Messages(m, mbox, ids)
  {
    var d, k := (c - {Loose(id)})[ByNetbuf(n) := c[Loose(id)]], (m - {Loose(id)})[ByNetbuf(n) := m[Loose(id)]];
    SameMessages(c, m, d, k, mbox, ids);
  }

  /** `tot_len` of a waiting packet. */
  lemma WaitingTotal(s: Store, id: nat)
    requires Holders.Held(s) && Loose(id) in s.chains
    ensures var p := First(s.chains[Loose(id)]);
            p != NULL && p in s.memory && s.memory[p].totLen == Counted(Segment(Named(Packets(s), id)))
  {
    PacketsAt(s, Loose(id));
    TotLenIsLength(s.memory, s.chains[Loose(id)]);
  }

  lemma NothingQueued(c: map<Owner, seq<Ptr>>, m: Contents)
    ensures Queued(c, [], []) && Messages(m, [], []) == []
  {
  }

  lemma GoodIsConsistent(s: Store)
    ensures Good(s) <==> Consistent(s, {})
  {
  }

  lemma NamedIs(m: Contents, id: nat)
    requires Loose(id) in m
    ensures Named(m, id) == Join(m[Loose(id)])
  {
  }

  lemma GivenBack(a: map<Ptr, Netbuf>, b: map<Ptr, Netbuf>, n: Ptr)
    requires n !in a && n in b && b == a[n := b[n]]
    ensures b - {n} == a && forall x {:trigger b[n := x]} :: b[n := x] == a[n := x]
  {
  }

  lemma MovedGone(a: map<Ptr, Netbuf>, b: map<Ptr, Netbuf>, n: Ptr)
    requires Stack.Moved(a, b, n)
    ensures n in b && b - {n} == a - {n}
  {
  }

  lemma GivenAway(a: map<Ptr, Netbuf>, b: map<Ptr, Netbuf>, n: Ptr)
    requires n !in a && n in b && b == a[n := b[n]]
    ensures b - {n} == a
  {
  }

  /** Netbufs do not matter for a mailbox. */
  lemma NetbufGone(c: map<Owner, seq<Ptr>>, m: Contents, mbox: seq<Ptr>, ids: seq<nat>, n: Ptr)
    requires Queued(c, mbox, ids) && c.Keys == m.Keys
    ensures Queued(c - {ByNetbuf(n)}, mbox, ids)
    ensures Messages(m - {ByNetbuf(n)}, mbox, ids) == Messages(m, mbox, ids)
  {
    SameMessages(c, m, c - {ByNetbuf(n)}, m - {ByNetbuf(n)}, mbox, ids);
  }

  lemma IsHeld(s: Store, except: set<Ptr>)
    requires Consistent(s, except)
    ensures Holders.Held(s) && Packets(s).Keys == s.chains.Keys
  {
  }

  lemma NothingCounted()
    ensures Counted(Closed) == 0 && Bytes(Closed) == []
  {
  }

  /** How a call of `netconn_recv` ends: a netconn without mailbox, in a fatal state or listening; no netbuf;
      no message in time; the message that the peer is done; a packet. */
  datatype Outcome = NoMailbox | Broken | Listening | NoMemory | TimedOut | Ended | Packet

  /** `struct netconn` of a TCP connection. Ghost fields name the waiting packets and record what happened. */
  class Netconn {
    const stack: Stack
    const capacity: nat
    const timeouts: bool
    var err: int
    var mailbox: bool
    var mbox: seq<Ptr>
    var recvAvail: int
    var listening: bool
    var pcb: bool
    var window: nat
    ghost var ids: seq<nat>
    ghost var posted: seq<byte>
    ghost var taken: seq<seq<byte>>
    ghost var credit: nat
    ghost var refused: nat

    constructor (stack: Stack, capacity: nat, timeouts: bool)
      requires Good(stack.View())
      ensures Valid() && Account() == OPENED && this.stack == stack && this.capacity == capacity && this.timeouts == timeouts
      ensures err == ERR_OK && mailbox && !listening && pcb && window == 0 && mbox == []
    {
      hide Good, Consistent, Holders.Held, Packets, Balanced, Queued, Messages, Stack.View;
      this.stack, this.capacity, this.timeouts := stack, capacity, timeouts;
      err, mailbox, mbox, recvAvail, listening, pcb, window := ERR_OK, true, [], 0, false, true, 0;
      ids, posted, taken, credit, refused := [], [], [], 0, 0;
      new;
      GoodIsConsistent(stack.View());
      IsHeld(stack.View(), {});
      OpenedBalanced();
      NothingQueued(stack.chains, stack.Contents());
    }

    ghost function Account(): Account
      requires Holders.Held(stack.View()) && |ids| == |mbox|
      reads this`mbox, this`ids, this`recvAvail, this`posted, this`taken, this`credit, this`refused, stack, stack.buffers
    {
      Accounts.Account(Messages(Packets(stack.View()), mbox, ids), recvAvail, posted, taken, credit, refused)
    }

    ghost predicate Valid()
      reads this, stack, stack.buffers
    {
      Good(stack.View()) && |ids| == |mbox| && Queued(stack.chains, mbox, ids) && Balanced(Account())
    }

    /** A call of `netconn_recv` gets as far as asking for a netbuf. */
    predicate Usable()
      reads this`mailbox, this`err, this`listening
    {
      mailbox && !Fatal(err) && !listening
    }

    /** `recv_tcp`: the stack posts the chain at `p`, which waits under the name `id`, or NULL. `recv_avail`
        counts it even when the mailbox has no room for it. */
    method RecvTcp(p: Ptr, e: int, ghost id: nat) returns (r: int)
      requires Valid()
      requires p != NULL ==> Loose(id) in stack.chains && First(stack.chains[Loose(id)]) == p && Spare(mbox, ids, id)
      modifies this
      ensures Valid() && r in {ERR_OK, ERR_MEM, ERR_VAL}
      ensures r == ERR_VAL <==> !old(mailbox)
      ensures r == ERR_VAL ==> err == old(err) && Account() == old(Account())
      ensures r == ERR_OK ==> old(|mbox|) < capacity
      ensures r == ERR_MEM ==> old(|mbox|) >= capacity
      ensures if r == ERR_OK then mbox == old(mbox) + [p] && ids == old(ids) + [id] else mbox == old(mbox) && ids == old(ids)
      ensures r != ERR_VAL ==> err == e
      ensures r != ERR_VAL && -14 <= e <= 0 ==>
                (Usable() <==> e in {ERR_OK, ERR_MEM, ERR_BUF, ERR_TIMEOUT, ERR_RTE} && !listening)
      ensures r != ERR_VAL ==>
                Account() == Post(old(Account()), if p == NULL then Closed else Segment(Named(stack.Contents(), id)), r == ERR_OK)
      ensures mailbox == old(mailbox) && listening == old(listening) && pcb == old(pcb) && window == old(window)
    {
      hide Good, Consistent, Holders.Held, Packets, Balanced, Queued, Messages, Named, ToS16, Counted, Bytes;
      if !mailbox {
        return ERR_VAL;
      }
      GoodIsConsistent(stack.View());
      IsHeld(stack.View(), {});
      ghost var m := if p == NULL then Closed else Segment(Named(stack.Contents(), id));
      ghost var a := Account();
      MorePosted(stack.chains, stack.Contents(), mbox, ids, p, id);
      if p != NULL {
        WaitingTotal(stack.View(), id);
      }
      AvailFits(a);
      NothingCounted();
      hide Stack.View, Stack.Contents;
      err := e;
      if p != NULL {
        recvAvail := ToS16(recvAvail + stack.buffers.memory[p].totLen);
      }
      if |mbox| < capacity {
        mbox, ids := mbox + [p], ids + [id];
        posted := posted + Bytes(m);
        PostBalanced(a, m, true);
        r := ERR_OK;
      } else {
        refused := refused + Counted(m);
        PostBalanced(a, m, false);
        r := ERR_MEM;
      }
    }

    /** `do_recv`: the window of the connection opens by `len`. */
    method DoRecv(len: u16)
      modifies this`window
      ensures window == old(window) + if !Fatal(err) && pcb then len else 0
    {
      if !Fatal(err) {
        if pcb {
          window := window + len;
        }
      }
    }

    /** The first message leaves the mailbox, and `recv_avail` stops counting it. */
    method Fetch() returns (p: Ptr, ghost id: nat)
      requires Holders.Held(stack.View()) && |ids| == |mbox| && Queued(stack.chains, mbox, ids)
      requires Balanced(Account()) && mbox != []
      modifies this`mbox, this`recvAvail, this`ids, this`taken, this`credit
      ensures p == old(mbox[0]) && |ids| == |mbox| && Account() == Take(old(Account())) && Balanced(Account())
      ensures Queued(stack.chains, mbox, ids) && mbox == old(mbox[1..]) && id == old(ids[0]) && ids == old(ids[1..])
      ensures p != NULL ==> Loose(id) in stack.chains && First(stack.chains[Loose(id)]) == p && Spare(mbox, ids, id)
      ensures p != NULL ==> taken == old(taken) + [Named(Packets(stack.View()), id)]
      ensures p != NULL ==> p in stack.buffers.memory && credit == old(credit) + stack.buffers.memory[p].totLen
      ensures p == NULL ==> taken == old(taken)
    {
      hide Holders.Held, Packets, Balanced, Queued, Messages, Named, ToS16, Counted, Bytes, Spare;
      p, id := mbox[0], ids[0];
      ghost var a := Account();
      FirstTaken(stack.chains, Packets(stack.View()), mbox, ids);
      TakeBalanced(a);
      AvailFits(a);
      NothingCounted();
      mbox, ids := mbox[1..], ids[1..];
      if p != NULL {
        FirstHeld(stack.chains, old(mbox), old(ids));
        WaitingTotal(stack.View(), id);
        recvAvail := ToS16(recvAvail - stack.buffers.memory[p].totLen);
        taken := taken + [Named(Packets(stack.View()), id)];
        credit := credit + stack.buffers.memory[p].totLen;
      }
    }

    /** `memp_malloc` of a netbuf for the packet to come. */
    method Obtain() returns (n: Ptr)
      requires Valid()
      modifies stack
      ensures Holders.Held(stack.View()) && Account() == old(Account()) && Queued(stack.chains, mbox, ids)
      ensures stack.chains == old(stack.chains)
      ensures Packets(stack.View()) == old(stack.Contents())
      ensures n == NULL <==> !old(stack.NetbufLeft())
      ensures n == NULL ==> stack.netbufs == old(stack.netbufs) && Good(stack.View()) && stack.Contents() == old(stack.Contents())
      ensures n != NULL ==> n !in old(stack.netbufs) && n in stack.netbufs && stack.netbufs == old(stack.netbufs)[n := stack.netbufs[n]]
      ensures n != NULL ==> Consistent(stack.View(), {n}) && ByNetbuf(n) !in stack.chains
    {
      hide Good, Consistent, Holders.Held, Packets, Balanced, Queued, Messages;
      GoodIsConsistent(stack.View());
      IsHeld(stack.View(), {});
      n := stack.MempNetbuf();
      if n != NULL {
        IsHeld(stack.View(), {n});
      }
    }

    /** `memp_free` of the netbuf that no packet came for. */
    method Release(n: Ptr)
      requires n in stack.netbufs && ByNetbuf(n) !in stack.chains && Consistent(stack.View(), {n})
      requires Holders.Held(stack.View()) && |ids| == |mbox| && Queued(stack.chains, mbox, ids)
      modifies stack
      ensures Good(stack.View()) && Holders.Held(stack.View()) && Account() == old(Account())
      ensures Queued(stack.chains, mbox, ids) && stack.chains == old(stack.chains)
      ensures stack.netbufs == old(stack.netbufs) - {n} && stack.Contents() == old(Packets(stack.View()))
    {
      hide Good, Consistent, Holders.Held, Packets, Queued, Messages;
      stack.GiveBack(n);
      GoodIsConsistent(stack.View());
      IsHeld(stack.View(), {});
    }

    /** The packet at `p`, which left the mailbox, becomes the one of the new netbuf, and the stack is told. */
    method HandOver(buf: Ptr, p: Ptr, ghost id: nat)
      requires Consistent(stack.View(), {buf}) && buf in stack.netbufs && buf != NULL && ByNetbuf(buf) !in stack.chains
      requires Holders.Held(stack.View()) && |ids| == |mbox| && Queued(stack.chains, mbox, ids) && Spare(mbox, ids, id)
      requires Loose(id) in stack.chains && First(stack.chains[Loose(id)]) == p && p in stack.buffers.memory
      modifies stack, this`window
      ensures Good(stack.View()) && Holders.Held(stack.View())
      ensures stack.netbufs == old(stack.netbufs)[buf := Netbuf(p, p, NULL, 0)]
      ensures Queued(stack.chains, mbox, ids)
      ensures Account() == old(Account())
      ensures ByNetbuf(buf) in stack.Contents() && Join(stack.Contents()[ByNetbuf(buf)]) == old(Named(Packets(stack.View()), id))
      ensures stack.chains == Handed(old(stack.chains), Loose(id), ByNetbuf(buf))
      ensures Loose(id) in old(Packets(stack.View()))
      ensures stack.Contents() == Handed(old(Packets(stack.View())), Loose(id), ByNetbuf(buf))
      ensures window == old(window) + if !Fatal(err) && pcb then stack.buffers.memory[p].totLen else 0
    {
      hide Good, Consistent, Holders.Held, Packets, Queued, Messages, Named, Spare, Join;
      IsHeld(stack.View(), {buf});
      ghost var c, m := stack.chains, Packets(stack.View());
      stack.Give(buf, p, id);
      GoodIsConsistent(stack.View());
      IsHeld(stack.View(), {});
      SpareTaken(c, m, mbox, ids, id, buf);
      NamedIs(m, id);
      DoRecv(stack.buffers.memory[stack.netbufs[buf].p].totLen);
    }

    /** The part of `netconn_recv` from waiting for a message, for which it has the netbuf `n`. */
    method Await(n: Ptr) returns (buf: Ptr, ghost out: Outcome)
      requires n != NULL && n in stack.netbufs && ByNetbuf(n) !in stack.chains && Consistent(stack.View(), {n})
      requires Holders.Held(stack.View()) && |ids| == |mbox| && Queued(stack.chains, mbox, ids) && Balanced(Account())
      requires !Fatal(err) && (!timeouts ==> mbox != [])
      modifies this, stack
      ensures Valid() && out in {TimedOut, Ended, Packet} && buf == if out == Packet then n else NULL
      ensures out == TimedOut <==> old(mbox) == []
      ensures out == Packet <==> old(mbox) != [] && old(mbox)[0] != NULL
      ensures out == TimedOut ==> timeouts && Account() == old(Account()) && mbox == old(mbox)
      ensures out != TimedOut ==> Account() == Take(old(Account())) && mbox == old(mbox)[1..]
      ensures err == if out == TimedOut then ERR_TIMEOUT else if out == Ended && old(err) == ERR_OK then ERR_CLSD else old(err)
      ensures out != Packet ==>
                stack.netbufs == old(stack.netbufs) - {n} && stack.Contents() == old(Packets(stack.View())) && window == old(window)
      ensures out == TimedOut ==> ids == old(ids)
      ensures out != TimedOut ==> ids == old(ids)[1..]
      ensures out != Packet ==> stack.chains == old(stack.chains)
      ensures out == Packet ==> |old(ids)| > 0 && GaveOut(old(stack.chains), stack.chains, old(ids)[0], n)
      ensures out == Packet ==> GaveOut(old(Packets(stack.View())), stack.Contents(), old(ids)[0], n)
      ensures out == Packet ==> stack.netbufs == old(stack.netbufs)[n := Netbuf(old(mbox)[0], old(mbox)[0], NULL, 0)]
      ensures out == Packet ==>
                |taken| > 0 && ByNetbuf(n) in stack.Contents() && Join(stack.Contents()[ByNetbuf(n)]) == taken[|taken| - 1]
      ensures out == Packet ==> window - old(window) == if pcb then credit - old(credit) else 0
      ensures mailbox == old(mailbox) && listening == old(listening) && pcb == old(pcb)
    {
      hide Good, Consistent, Holders.Held, Packets, Balanced, Queued, Messages, Named, Spare, Join, Take, Account, Handed,
        Stack.View, Stack.Contents;
      if mbox == [] {
        Release(n);
        err := ERR_TIMEOUT;
        return NULL, TimedOut;
      }
      var p, id := Fetch();
      if p == NULL {
        Release(n);
        if err == ERR_OK {
          err := ERR_CLSD;
        }
        return NULL, Ended;
      }
      HandOver(n, p, id);
      return n, Packet;
    }

    /** `netconn_recv`. With a message in the mailbox, or a timeout for waiting, it returns; the netbuf that
        it allocates is the result or is given back. A packet is returned whenever one is first in the mailbox of a
        usable netconn and a netbuf is free. */
    method Receive() returns (buf: Ptr, ghost out: Outcome)
      requires Valid() && (Usable() && stack.NetbufLeft() && !timeouts ==> mbox != [])
      modifies this, stack
      ensures Valid() && (buf == NULL <==> out != Packet)
      ensures out == NoMailbox <==> !old(mailbox)
      ensures out == Broken <==> old(mailbox && Fatal(err))
      ensures out == Listening <==> old(mailbox && !Fatal(err) && listening)
      ensures out == NoMemory <==> old(Usable() && !stack.NetbufLeft())
      ensures out == TimedOut <==> old(Usable() && stack.NetbufLeft() && mbox == [])
      ensures out == Ended <==> old(Usable() && stack.NetbufLeft() && mbox != [] && mbox[0] == NULL)
      ensures out == Packet <==> old(Usable() && stack.NetbufLeft() && mbox != [] && mbox[0] != NULL)
      ensures out == TimedOut ==> timeouts
      ensures out in {NoMemory, TimedOut, Packet} ==> Usable()
      ensures out == Ended ==> (Usable() <==> old(err) != ERR_OK)
      ensures out in {NoMailbox, Broken, Listening} ==> !Usable()
      ensures out in {Ended, Packet} ==> old(mbox) != [] && Account() == Take(old(Account())) && mbox == old(mbox[1..])
      ensures out !in {Ended, Packet} ==> Account() == old(Account()) && mbox == old(mbox)
      ensures err == match out {
                       case NoMailbox => ERR_CONN
                       case Broken => old(err)
                       case Listening => ERR_CONN
                       case NoMemory => ERR_MEM
                       case TimedOut => ERR_TIMEOUT
                       case Ended => if old(err) == ERR_OK then ERR_CLSD else old(err)
                       case Packet => old(err)
                     }
      ensures out != Packet ==> stack.netbufs == old(stack.netbufs) && stack.Contents() == old(stack.Contents())
      ensures out != Packet ==> window == old(window)
      ensures out in {Ended, Packet} ==> ids == old(ids)[1..]
      ensures out !in {Ended, Packet} ==> ids == old(ids)
      ensures out != Packet ==> stack.chains == old(stack.chains)
      ensures out == Packet ==> |old(ids)| > 0 && GaveOut(old(stack.chains), stack.chains, old(ids)[0], buf)
      ensures out == Packet ==> GaveOut(old(stack.Contents()), stack.Contents(), old(ids)[0], buf)
      ensures out == Packet ==>
                buf !in old(stack.netbufs)
                && stack.netbufs == old(stack.netbufs)[buf := Netbuf(old(mbox[0]), old(mbox[0]), NULL, 0)]
      ensures out == Packet ==>
                |taken| > 0 && ByNetbuf(buf) in stack.Contents() && Join(stack.Contents()[ByNetbuf(buf)]) == taken[|taken| - 1]
      ensures out == Packet ==> window - old(window) == if pcb then credit - old(credit) else 0
      ensures mailbox == old(mailbox) && listening == old(listening) && pcb == old(pcb)
    {
      hide Good, Consistent, Holders.Held, Packets, Balanced, Queued, Messages, Spare, Join, Take, Account, GaveOut,
        Stack.View, Stack.Contents;
      buf := NULL;
      GoodIsConsistent(stack.View());
      IsHeld(stack.View(), {});
      if !mailbox {
        err := ERR_CONN;
        return NULL, NoMailbox;
      }
      if Fatal(err) {
        return NULL, Broken;
      }
      if listening {
        err := ERR_CONN;
        return NULL, Listening;
      }
      buf := Obtain();
      if buf == NULL {
        err := ERR_MEM;
        return NULL, NoMemory;
      }
      ghost var n, before := buf, stack.netbufs;
      buf, out := Await(buf);
      GivenBack(old(stack.netbufs), before, n);
    }

    /** A packet that was received is read with the cursor, and its netbuf is deleted. */
    method Consume(buf: Ptr) returns (data: seq<byte>)
      requires Valid() && buf in stack.netbufs && stack.netbufs[buf].p != NULL
      modifies stack, stack.buffers
      ensures Valid() && Account() == old(Account()) && stack.netbufs == old(stack.netbufs) - {buf}
      ensures stack.Contents() == old(stack.Contents()) - {ByNetbuf(buf)} && stack.chains == old(stack.chains) - {ByNetbuf(buf)}
      ensures ByNetbuf(buf) in old(stack.Contents()) && data == Join(old(stack.Contents())[ByNetbuf(buf)])
    {
      hide Good, Consistent, Holders.Held, Packets, Balanced, Queued, Messages, Join, Stack.Moved;
      GoodIsConsistent(stack.View());
      IsHeld(stack.View(), {});
      ghost var before, c, m := stack.netbufs, stack.chains, stack.Contents();
      data := stack.ReadAll(buf);
      MovedGone(before, stack.netbufs, buf);
      stack.NetbufDelete(buf);
      NetbufGone(c, m, mbox, ids, buf);
      GoodIsConsistent(stack.View());
      IsHeld(stack.View(), {});
    }

    /** One round of a reader: a packet is received, read and deleted; every other one stays. */
    method ReadOne() returns (data: Option<seq<byte>>)
      requires Valid() && Usable() && (stack.NetbufLeft() && !timeouts ==> mbox != [])
      modifies this, stack, stack.buffers
      ensures data.Some? <==> old(stack.NetbufLeft() && mbox != [] && mbox[0] != NULL)
      ensures Valid() && posted == old(posted) && stack.netbufs == old(stack.netbufs)
      ensures data.Some? ==> old(mbox) != [] && mbox == old(mbox)[1..] && taken == old(taken) + [data.value]
      ensures data.Some? ==> |old(ids)| > 0 && ids == old(ids)[1..]
      ensures data.Some? ==> stack.Contents() == old(stack.Contents()) - {Loose(old(ids)[0])}
      ensures data.Some? ==> stack.chains == old(stack.chains) - {Loose(old(ids)[0])}
      ensures data.Some? ==> Usable()
      ensures data == None ==> taken == old(taken) && stack.Contents() == old(stack.Contents()) && stack.chains == old(stack.chains)
      ensures data == None ==> ids == old(ids) || (old(ids) != [] && ids == old(ids)[1..])
    {
      hide Good, Consistent, Holders.Held, Packets, Balanced, Queued, Messages, Join, Handed;
      ghost var before, c, m := stack.netbufs, stack.chains, stack.Contents();
      var buf, out := Receive();
      if buf == NULL {
        return None;
      }
      GivenAway(before, stack.netbufs, buf);
      NoPacket(old(stack.View()), buf);
      var d := Consume(buf);
      HandedAway(c, Loose(old(ids)[0]), ByNetbuf(buf));
      HandedAway(m, Loose(old(ids)[0]), ByNetbuf(buf));
      data := Some(d);
    }

    /** What a valid netconn guarantees to a reader. */
    lemma Sound()
      requires Valid()
      ensures Good(stack.View()) && |ids| == |mbox| && Join(taken) <= posted
    {
      hide Good, Consistent, Holders.Held, Packets, Balanced, Queued, Messages, Join;
      GoodIsConsistent(stack.View());
      IsHeld(stack.View(), {});
      StreamInOrder(Account());
    }

    /** A reader of up to `count` packets, which stops when a call returns none: what it reads is the next
        bytes of the posted stream, in order; the packets read are gone, every other one stays, and no netbuf
        is left behind. With a free netbuf it reads all packets up to the end of the mailbox or of the stream. */
    method ReadStream(count: nat) returns (out: seq<byte>, k: nat)
      requires Valid() && Usable() && (stack.NetbufLeft() && !timeouts ==> count <= |mbox|)
      modifies this, stack, stack.buffers
      ensures Valid() && posted == old(posted) && stack.netbufs == old(stack.netbufs)
      ensures Join(taken) == old(Join(taken)) + out && old(Join(taken)) + out <= posted
      ensures k <= count && |taken| == old(|taken|) + k && k <= old(|ids|) == old(|mbox|)
      ensures k == count ==> mbox == old(mbox)[k..]
      ensures Suffix(ids, old(ids))
      ensures !old(stack.NetbufLeft()) ==> k == 0
      ensures forall i :: 0 <= i < k ==> old(mbox)[i] != NULL
      ensures k < count && old(stack.NetbufLeft()) ==> k == old(|mbox|) || old(mbox)[k] == NULL
      ensures stack.Contents() == old(stack.Contents()) - Names(old(ids), k)
      ensures stack.chains == old(stack.chains) - Names(old(ids), k)
    {
      hide Valid, Good, Join, Names, Suffix, Stack.View, Stack.Contents;
      Sound();
      out, k := [], 0;
      ghost var names, c, m := ids, stack.chains, stack.Contents();
      NoneGone(c, names);
      NoneGone(m, names);
      SuffixTail(names, k);
      var more := true;
      while more && k < count
        invariant Valid() && Good(stack.View()) && posted == old(posted) && stack.netbufs == old(stack.netbufs)
        invariant more ==> Usable() && (stack.NetbufLeft() && !timeouts ==> count <= |mbox| + k)
        invariant Join(taken) == old(Join(taken)) + out && k <= count && |taken| == old(|taken|) + k
        invariant k <= |names| == |old(mbox)| && (more ==> ids == names[k..] && mbox == old(mbox)[k..])
        invariant Suffix(ids, names)
        invariant !more ==> k < count && (stack.NetbufLeft() ==> k == |old(mbox)| || old(mbox)[k] == NULL)
        invariant (k > 0 ==> stack.NetbufLeft()) && forall i :: 0 <= i < k ==> old(mbox)[i] != NULL
        invariant stack.Contents() == m - Names(names, k) && stack.chains == c - Names(names, k)
        decreases more, count - k
      {
        ghost var t := taken;
        SuffixTail(names, k);
        var data := ReadOne();
        Sound();
        if data.Some? {
          JoinOne(t, data.value);
          OneGone(c, names, k);
          OneGone(m, names, k);
          out, k := out + data.value, k + 1;
        } else {
          more := false;
        }
      }
      Sound();
    }
  }

  lemma NoneGone<T>(m: map<Owner, T>, ids: seq<nat>)
    ensures m - Names(ids, 0) == m
  {
  }

  lemma OneGone<T>(m: map<Owner, T>, ids: seq<nat>, k: nat)
    requires k < |ids|
    ensures m - Names(ids, k) - {Loose(ids[k..][0])} == m - Names(ids, k + 1)
    ensures ids[k..][1..] == ids[k + 1..]
  {
  }
}
