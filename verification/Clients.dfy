/** Users of netbufs and netconns: packets from the driver to a reader, netconns beside each other, and
    netbufs beside a netconn. */
module Clients {
  import opened Machine
  import opened Pbufs
  import opened Holders
  import opened Netbufs
  import opened Accounts
  import opened Netconns

  /** Names that are none of the first `k` of `ids`. */
  lemma {:induction false} NotNamed(ids: seq<nat>, k: nat, id: nat)
    requires k <= |ids| && forall i :: 0 <= i < k ==> ids[i] != id
    ensures Loose(id) !in Names(ids, k)
    decreases k
  {
    if k > 0 {
      NotNamed(ids, k - 1, id);
    }
  }

  /** The bytes of some packets, each given by its parts. */
  function AllBytes(ps: seq<seq<seq<byte>>>): seq<byte> {
    if ps == [] then [] else AllBytes(ps[..|ps| - 1]) + Join(ps[|ps| - 1])
  }

  /** A new name is not in the mailbox. */
  lemma NewName(c: map<Owner, seq<Ptr>>, mbox: seq<Ptr>, ids: seq<nat>, id: nat)
    requires Queued(c, mbox, ids) && Loose(id) !in c
    ensures Spare(mbox, ids, id)
  {
  }

  /** A packet that came in beside a netconn leaves it valid. */
  lemma StaysBeside(c: map<Owner, seq<Ptr>>, m: Contents, d: map<Owner, seq<Ptr>>, n: Contents, mbox: seq<Ptr>, ids: seq<nat>, id: nat)
    requires Queued(c, mbox, ids) && c.Keys == m.Keys && Loose(id) !in c && d - {Loose(id)} == c && n - {Loose(id)} == m
    ensures Queued(d, mbox, ids) && Messages(n, mbox, ids) == Messages(m, mbox, ids)
  {
    forall o | o in c
      ensures o in d && d[o] == c[o] && o in n && n[o] == m[o]
    {
      assert c[o] == (d - {Loose(id)})[o] && m[o] == (n - {Loose(id)})[o];
    }
    SameMessages(c, m, d, n, mbox, ids);
  }

  /** One packet from the driver into the mailbox. */
  method Deliver(conn: Netconn, parts: seq<seq<byte>>) returns (ok: bool)
    requires conn.Valid() && conn.mailbox && |conn.mbox| < conn.capacity && !Fatal(conn.err)
    requires parts != [] && forall i :: 0 <= i < |parts| ==> |parts[i]| < 0x1_0000
    modifies conn, conn.stack, conn.stack.buffers
    ensures conn.Valid() && conn.mailbox && !Fatal(conn.err)
    ensures ok <==> |parts| <= old(conn.stack.BuffersLeft())
    ensures conn.stack.BuffersLeft() == old(conn.stack.BuffersLeft()) - if ok then |parts| else 0
    ensures conn.listening == old(conn.listening)
    ensures ok ==> conn.posted == old(conn.posted) + Join(parts)
    ensures ok ==> |conn.mbox| == |old(conn.mbox)| + 1 && conn.mbox[|old(conn.mbox)|] != NULL
    ensures ok ==> conn.mbox[..|old(conn.mbox)|] == old(conn.mbox)
    ensures !ok ==> conn.posted == old(conn.posted) && conn.mbox == old(conn.mbox)
    ensures conn.taken == old(conn.taken)
    ensures conn.stack.netbufs == old(conn.stack.netbufs)
  {
    hide Good, Consistent, Holders.Held, Packets, Balanced, Queued, Messages, Join, Named, Counted, Stack.BuffersLeft, Spare;
    GoodIsConsistent(conn.stack.View());
    IsHeld(conn.stack.View(), {});
    ghost var c, m := conn.stack.chains, conn.stack.Contents();
    var p, id := conn.stack.Arrive(parts);
    ok := p != NULL;
    if ok {
      StaysBeside(c, m, conn.stack.chains, conn.stack.Contents(), conn.mbox, conn.ids, id);
      NewName(c, conn.mbox, conn.ids, id);
      NamedIs(conn.stack.Contents(), id);
      var r := conn.RecvTcp(p, ERR_OK, id);
    }
  }

  /** How many buffers some packets need. */
  function PartCount(ps: seq<seq<seq<byte>>>): nat {
    if ps == [] then 0 else PartCount(ps[..|ps| - 1]) + |ps[|ps| - 1]|
  }

  lemma AllFree(pool: Pool, m: Memory)
    requires m == map[]
    ensures Free(pool, m) == |pool|
  {
    assert pool - m.Keys == pool;
  }

  lemma NoBytes(ps: seq<seq<seq<byte>>>)
    ensures AllBytes(ps[..0]) == [] && Join([]) == [] && PartCount(ps[..0]) == 0
  {
  }

  lemma MoreBytes(ps: seq<seq<seq<byte>>>, n: nat)
    requires n < |ps|
    ensures AllBytes(ps[..n + 1]) == AllBytes(ps[..n]) + Join(ps[n])
    ensures PartCount(ps[..n + 1]) == PartCount(ps[..n]) + |ps[n]|
  {
    assert ps[..n + 1][..n] == ps[..n];
  }

  /** From the driver to the application: the `packets` come in up to the first for which the pool has too few
      buffers, and are posted on a new netconn, which a reader then reads. It gets the bytes of the packets that came
      in, in order and in full when there is a netbuf at all. */
  method FromDriver(packets: seq<seq<seq<byte>>>, netbufPool: Pool, refPool: Pool, bufferPool: Pool, heap: (Memory, u16) -> Ptr)
    returns (out: seq<byte>, n: nat, k: nat, ghost conn: Netconn)
    requires forall i, j :: 0 <= i < |packets| && 0 <= j < |packets[i]| ==> |packets[i][j]| < 0x1_0000
    requires forall i :: 0 <= i < |packets| ==> packets[i] != []
    ensures n <= |packets| && PartCount(packets[..n]) <= |bufferPool|
    ensures n < |packets| ==> PartCount(packets[..n + 1]) > |bufferPool|
    ensures k == (if netbufPool == {} then 0 else n) && out == AllBytes(packets[..k])
    ensures fresh(conn) && conn.Valid() && conn.stack.netbufs == map[]
  {
    hide Good, Consistent, Holders.Held, Packets, Balanced, Queued, Messages, Join, AllBytes, PartCount, Free;
    var stack := new Stack(netbufPool, refPool, bufferPool, heap);
    AllFree(bufferPool, stack.buffers.memory);
    var c := new Netconn(stack, |packets|, true);
    conn := c;
    n := 0;
    var more := true;
    NoBytes(packets);
    while more && n < |packets|
      invariant n <= |packets| == c.capacity && c.stack == stack && c.timeouts
      invariant c.Valid() && c.mailbox && !c.listening && !Fatal(c.err) && stack.netbufs == map[]
      invariant c.posted == AllBytes(packets[..n]) && c.taken == [] && |c.mbox| == n
      invariant forall i :: 0 <= i < n ==> c.mbox[i] != NULL
      invariant stack.BuffersLeft() == |bufferPool| - PartCount(packets[..n])
      invariant !more ==> n < |packets| && PartCount(packets[..n + 1]) > |bufferPool|
      decreases more, |packets| - n
    {
      MoreBytes(packets, n);
      more := Deliver(c, packets[n]);
      if more {
        n := n + 1;
      }
    }
    out, k := c.ReadStream(n);
    GoodIsConsistent(stack.View());
    IsHeld(stack.View(), {});
    StreamInOrder(c.Account());
    assert packets[..n] <= packets;
  }

  /** Netconns on one stack share no packet. */
  ghost predicate Disjoint(ids: seq<nat>, others: seq<nat>) {
    forall i, j :: 0 <= i < |ids| && 0 <= j < |others| ==> ids[i] != others[j]
  }

  /** Taking packets of one netconn leaves the mailbox of another alone. */
  lemma StaysApart(c: map<Owner, seq<Ptr>>, m: Contents, mbox: seq<Ptr>, ids: seq<nat>, others: seq<nat>, k: nat)
    requires Queued(c, mbox, ids) && c.Keys == m.Keys && k <= |others| && Disjoint(ids, others)
    ensures Queued(c - Names(others, k), mbox, ids)
    ensures Messages(m - Names(others, k), mbox, ids) == Messages(m, mbox, ids)
  {
    forall i | 0 <= i < |ids|
      ensures Loose(ids[i]) !in Names(others, k)
    {
      NotNamed(others, k, ids[i]);
    }
    SameMessages(c, m, c - Names(others, k), m - Names(others, k), mbox, ids);
  }

  lemma StillDisjoint(ids: seq<nat>, all: seq<nat>, others: seq<nat>)
    requires Disjoint(all, others) && Suffix(ids, all)
    ensures Disjoint(ids, others)
  {
  }

  /** The first `n` messages are packets. */
  predicate AllPackets(mbox: seq<Ptr>, n: nat) {
    n <= |mbox| && forall i :: 0 <= i < n ==> mbox[i] != NULL
  }

  /** Two netconns on one stack are read one after the other: each reader gets its own stream, and as much of it as
      it asks for when there is a free netbuf. */
  method ReadBoth(a: Netconn, b: Netconn, n: nat, m: nat) returns (x: seq<byte>, y: seq<byte>)
    requires a != b && a.stack == b.stack && a.Valid() && b.Valid() && Disjoint(b.ids, a.ids) && Disjoint(a.ids, b.ids)
    requires a.Usable() && (!a.timeouts ==> n <= |a.mbox|) && b.Usable() && (!b.timeouts ==> m <= |b.mbox|)
    modifies a, b, a.stack, a.stack.buffers
    ensures a.Valid() && b.Valid() && a.posted == old(a.posted) && b.posted == old(b.posted)
    ensures Join(a.taken) == old(Join(a.taken)) + x <= a.posted && Join(b.taken) == old(Join(b.taken)) + y <= b.posted
    ensures a.stack.netbufs == old(a.stack.netbufs)
    ensures old(a.stack.NetbufLeft()) && AllPackets(old(a.mbox), n) ==> |a.taken| == |old(a.taken)| + n
    ensures old(a.stack.NetbufLeft()) && AllPackets(old(b.mbox), m) ==> |b.taken| == |old(b.taken)| + m
  {
    hide Good, Consistent, Holders.Held, Packets, Balanced, Queued, Messages, Join, Disjoint;
    GoodIsConsistent(a.stack.View());
    IsHeld(a.stack.View(), {});
    ghost var c, k := a.stack.chains, a.stack.Contents();
    var i, j;
    x, i := a.ReadStream(n);
    StaysApart(c, k, b.mbox, b.ids, old(a.ids), i);
    GoodIsConsistent(a.stack.View());
    IsHeld(a.stack.View(), {});
    c, k := a.stack.chains, a.stack.Contents();
    StillDisjoint(a.ids, old(a.ids), b.ids);
    y, j := b.ReadStream(m);
    StaysApart(c, k, a.mbox, a.ids, old(b.ids), j);
    GoodIsConsistent(a.stack.View());
    IsHeld(a.stack.View(), {});
  }

  /** Packets that no netbuf holds are the same. */
  ghost predicate LooseSame<T>(m: map<Owner, T>, k: map<Owner, T>) {
    forall id :: Loose(id) in m ==> Loose(id) in k && k[Loose(id)] == m[Loose(id)]
  }

  lemma LooseKept<T>(m: map<Owner, T>, k: map<Owner, T>, n: Ptr, x: T)
    requires LooseSame(m, k)
    ensures LooseSame(m, k - {ByNetbuf(n)}) && LooseSame(m, k[ByNetbuf(n) := x])
  {
  }

  lemma LooseChained<T>(m: map<Owner, seq<T>>, k: map<Owner, seq<T>>, head: Ptr, tail: Ptr, l: nat)
    requires LooseSame(m, k)
    ensures LooseSame(m, Stack.Chained(k, head, tail, l))
  {
  }

  /** Two netbufs get packets, are chained and read, and the result is deleted. */
  method Combine(stack: Stack, head: Ptr, tail: Ptr, size: u16, data: seq<byte>, len: u16,
      ghost c: map<Owner, seq<Ptr>>, ghost m: Contents)
    returns (out: Option<seq<byte>>)
    requires Good(stack.View()) && head in stack.netbufs && tail in stack.netbufs && head != tail && len <= |data|
    requires LooseSame(c, stack.chains) && LooseSame(m, stack.Contents())
    modifies stack, stack.buffers
    ensures Good(stack.View()) && LooseSame(c, stack.chains) && LooseSame(m, stack.Contents())
    ensures out.Some? ==> out.value == data[..len] + data[..len]
  {
    hide Good, Packets, Stack.Chained, Stack.Tidy, LooseSame, Join;
    out := None;
    Stack.NullHolds(stack.View());
    var ok := FillUp(stack, head, size, data, len, c, m);
    var ok' := FillUp(stack, tail, size, data, len, c, m);
    ghost var was, had := stack.chains, stack.Contents();
    ghost var k := stack.NetbufChain(head, tail);
    LooseChained(c, was, head, tail, k);
    LooseChained(m, had, head, tail, k);
    LooseKept(c, stack.chains, head, []);
    LooseKept(m, stack.Contents(), head, []);
    if ok && ok' {
      JoinedTwo(had, head, tail, k, data[..len]);
      Stack.HasPacket(stack.View(), head);
      var all := stack.ReadAll(head);
      out := Some(all);
    }
    stack.NetbufDelete(head);
  }

  /** An application that works with netbufs of its own beside a netconn: it makes two, lets them have packets,
      chains and reads them and deletes the result. The netconn stays valid, with the same account. */
  method WorkBeside(conn: Netconn, size: u16, data: seq<byte>, len: u16) returns (out: Option<seq<byte>>)
    requires conn.Valid() && len <= |data|
    modifies conn.stack, conn.stack.buffers
    ensures conn.Valid() && conn.Account() == old(conn.Account())
    ensures out.Some? ==> out.value == data[..len] + data[..len]
  {
    out := None;
    hide Good, Consistent, Holders.Held, Packets, Balanced, Queued, Messages, Stack.Chained, LooseSame;
    GoodIsConsistent(conn.stack.View());
    IsHeld(conn.stack.View(), {});
    ghost var c, m := conn.stack.chains, conn.stack.Contents();
    LooseStart(c);
    LooseStart(m);
    var head := conn.stack.NetbufNew();
    var tail := conn.stack.NetbufNew();
    if head != NULL && tail != NULL {
      out := Combine(conn.stack, head, tail, size, data, len, c, m);
    }
    StaysLoose(c, m, conn.stack.chains, conn.stack.Contents(), conn.mbox, conn.ids);
    GoodIsConsistent(conn.stack.View());
    IsHeld(conn.stack.View(), {});
  }

  lemma LooseStart<T>(m: map<Owner, T>)
    ensures LooseSame(m, m)
  {
  }

  lemma StaysLoose(c: map<Owner, seq<Ptr>>, m: Contents, d: map<Owner, seq<Ptr>>, n: Contents, mbox: seq<Ptr>, ids: seq<nat>)
    requires Queued(c, mbox, ids) && c.Keys == m.Keys && LooseSame(c, d) && LooseSame(m, n)
    ensures Queued(d, mbox, ids) && Messages(n, mbox, ids) == Messages(m, mbox, ids)
  {
    SameMessages(c, m, d, n, mbox, ids);
  }

  lemma Refilled(k: Contents, m: Contents, o: Owner, x: seq<seq<byte>>, y: seq<seq<byte>>)
    requires k == m - {o} || k == m[o := x]
    ensures k[o := y] == m[o := y]
  {
  }

  /** Two netbufs that refer to the same bytes, chained. */
  lemma JoinedTwo(m: Contents, head: Ptr, tail: Ptr, k: nat, bytes: seq<byte>)
    requires head != tail && ByNetbuf(head) in m && ByNetbuf(tail) in m && m[ByNetbuf(head)] == m[ByNetbuf(tail)] == [bytes]
    ensures var r := Stack.Chained(m, head, tail, k);
            ByNetbuf(head) in r && Join(r[ByNetbuf(head)]) == bytes + bytes
  {
    JoinOne([], bytes);
    JoinOne([bytes], bytes);
    assert [] + [bytes] == [bytes] && [bytes] + [bytes] == [bytes, bytes];
  }

  /** A netbuf gets a packet of its own, and then one that refers to `data`. */
  method FillUp(stack: Stack, buf: Ptr, size: u16, data: seq<byte>, len: u16, ghost c: map<Owner, seq<Ptr>>, ghost m: Contents)
    returns (ok: bool)
    requires Good(stack.View()) && buf in stack.netbufs && len <= |data|
    requires LooseSame(c, stack.chains) && LooseSame(m, stack.Contents())
    modifies stack, stack.buffers
    ensures Good(stack.View()) && LooseSame(c, stack.chains) && LooseSame(m, stack.Contents())
    ensures stack.netbufs.Keys == old(stack.netbufs.Keys)
    ensures ok ==> stack.Contents() == old(stack.Contents())[ByNetbuf(buf) := [data[..len]]]
  {
    hide Good, LooseSame, Packets, Stack.Released, Stack.Tidy;
    Stack.NullHolds(stack.View());
    ghost var was, had := stack.chains, stack.Contents();
    var room := stack.NetbufAlloc(buf, size);
    LooseKept(c, was, buf, if room.Some? then [stack.netbufs[buf].p] else []);
    LooseKept(m, had, buf, if room.Some? then [room.value] else []);
    Refilled(stack.Contents(), had, ByNetbuf(buf), if room.Some? then [room.value] else [], [data[..len]]);
    was, had := stack.chains, stack.Contents();
    var err := stack.NetbufRef(buf, data, len);
    LooseKept(c, was, buf, if err == ERR_OK then [stack.netbufs[buf].p] else []);
    LooseKept(m, had, buf, [data[..len]]);
    ok := err == ERR_OK;
  }
}
