/** The functions of `netbuf.c` on the netbufs and packet buffers in use. */
module Netbufs {
  import opened Machine
  import opened Pbufs
  import opened Holders

  const ERR_OK: int := 0
  const ERR_MEM: int := -1
  const ERR_BUF: int := -2
  const ERR_ARG: int := -10

  /** The addresses of the records of a memory pool. */
  type Pool = p: set<Ptr> | NULL !in p

  /** The types of `struct pbuf`: from the heap, from the pool of records without data, and from the pool of buffers
      that drivers use. */
  datatype PbufType = PbufRam | PbufRef | PbufPool

  /** How many records of a pool are free. */
  function Free(pool: Pool, m: Memory): nat { |pool - m.Keys| }

  lemma FreeLess(pool: Pool, m: Memory, n: Memory, q: Ptr)
    requires q in pool && q !in m && n.Keys == m.Keys + {q}
    ensures Free(pool, m) == Free(pool, n) + 1
  {
    assert pool - n.Keys == pool - m.Keys - {q};
  }

  lemma NoneFree(pool: Pool, m: Memory)
    ensures Free(pool, m) == 0 <==> pool <= m.Keys
  {
    if !(pool <= m.Keys) {
      var q :| q in pool && q !in m.Keys;
      assert q in pool - m.Keys;
    } else {
      assert pool - m.Keys == {};
    }
  }

  /** Some name is not in use. */
  lemma {:induction false} FreshAddress(used: set<Ptr>)
    ensures exists q: Ptr :: q != NULL && q !in used
  {
    var b := Bound(used);
    assert b + 1 !in used;
  }

  lemma {:induction false} Bound(used: set<Ptr>) returns (b: Ptr)
    ensures forall q :: q in used ==> q <= b
    decreases used
  {
    b := 0;
    if used != {} {
      var q :| q in used;
      b := Bound(used - {q});
      assert forall r :: r in used ==> r == q || r in used - {q};
      if b < q {
        b := q;
      }
    }
  }

  class Stack {
    const netbufPool: Pool              // MEMP_NETBUF
    const refPool: Pool                 // MEMP_PBUF
    const bufferPool: Pool              // MEMP_PBUF_POOL
    const heap: (Memory, u16) -> Ptr    // where `mem_malloc` puts a buffer, with these in use; NULL for nowhere
    const buffers: Buffers
    var netbufs: map<Ptr, Netbuf>
    ghost var chains: map<Owner, seq<Ptr>>
    ghost var place: map<Ptr, Owner>

    constructor (netbufPool: Pool, refPool: Pool, bufferPool: Pool, heap: (Memory, u16) -> Ptr)
      ensures Good(View()) && netbufs == map[] && chains == map[] && fresh(buffers) && buffers.memory == map[]
      ensures this.netbufPool == netbufPool && this.refPool == refPool && this.bufferPool == bufferPool && this.heap == heap
    {
      this.netbufPool, this.refPool, this.bufferPool, this.heap := netbufPool, refPool, bufferPool, heap;
      buffers := new Buffers();
      netbufs, chains, place := map[], map[], map[];
    }

    ghost function View(): Store
      reads this, buffers
    {
      Store(buffers.memory, netbufs, chains, place)
    }

    ghost function Contents(): map<Owner, seq<seq<byte>>>
      requires Good(View())
      reads this, buffers
    {
      Packets(View())
    }

    /** The cursor of `n` was left on a released buffer. */
    predicate Dangling(n: Ptr)
      requires n in netbufs
      reads this
    {
      netbufs[n].p == NULL && netbufs[n].ptr != NULL
    }

    /** A netbuf without a packet has no cursor either. */
    ghost predicate Tidy()
      reads this
    {
      TidyAll(netbufs)
    }

    static ghost predicate TidyAll(m: map<Ptr, Netbuf>) {
      forall n :: n in m && m[n].p == NULL ==> m[n].ptr == NULL
    }

    static lemma TidyWith(m: map<Ptr, Netbuf>, n: Ptr, b: Netbuf)
      requires TidyAll(m) && (b.p == NULL ==> b.ptr == NULL)
      ensures TidyAll(m[n := b]) && TidyAll(m[n := b] - {n}) && TidyAll(m - {n})
    {
    }

    // -------------------------------------------------------------------------------------------
    // The allocators

    /** A record of the netbuf pool is free. */
    predicate NetbufLeft()
      reads this`netbufs
    {
      !(netbufPool <= netbufs.Keys)
    }

    /** How many of the driver's buffers are free. */
    function BuffersLeft(): nat
      reads buffers
    {
      Free(bufferPool, buffers.memory)
    }

    /** There is memory for one more buffer of that type and length, when those of `m` are in use. */
    predicate HasRoom(kind: PbufType, m: Memory, len: u16) {
      match kind
      case PbufRam => heap(m, len) != NULL && heap(m, len) !in m
      case PbufRef => !(refPool <= m.Keys)
      case PbufPool => !(bufferPool <= m.Keys)
    }

    /** `memp_malloc`: any free record of the pool, or none when there is none. */
    static method MempMalloc(pool: Pool, used: set<Ptr>) returns (q: Ptr)
      ensures q == NULL <==> pool <= used
      ensures q != NULL ==> q in pool && q !in used
    {
      if pool <= used {
        return NULL;
      }
      q :| q in pool && q !in used;
    }

    /** `pbuf_alloc` for one buffer: with one reference, or none exactly when there is no room. */
    method PbufAlloc(kind: PbufType, payload: seq<byte>, len: u16) returns (q: Ptr)
      requires len <= |payload|
      modifies buffers
      ensures q == NULL <==> !HasRoom(kind, old(buffers.memory), len)
      ensures q == NULL ==> buffers.memory == old(buffers.memory)
      ensures q != NULL ==> q !in old(buffers.memory) && (kind == PbufPool ==> q in bufferPool)
      ensures q != NULL && kind == PbufRam ==> q == heap(old(buffers.memory), len)
      ensures q != NULL ==> buffers.memory == old(buffers.memory)[q := Pbuf(NULL, payload, len, len, 1)]
    {
      match kind {
        case PbufRam =>
          q := heap(buffers.memory, len);
          if q in buffers.memory {
            q := NULL;
          }
        case PbufRef =>
          q := MempMalloc(refPool, buffers.memory.Keys);
        case PbufPool =>
          q := MempMalloc(bufferPool, buffers.memory.Keys);
      }
      if q != NULL {
        buffers.memory := buffers.memory[q := Pbuf(NULL, payload, len, len, 1)];
      }
    }

    // -------------------------------------------------------------------------------------------
    // The functions

    method NetbufNew() returns (buf: Ptr)
      requires Good(View())
      modifies this
      ensures Good(View()) && Contents() == old(Contents()) && buffers.memory == old(buffers.memory)
      ensures chains == old(chains) && (old(Tidy()) ==> Tidy())
      ensures buf == NULL <==> !old(NetbufLeft())
      ensures buf == NULL ==> View() == old(View())
      ensures buf != NULL ==> buf !in old(netbufs) && netbufs == old(netbufs)[buf := Netbuf(NULL, NULL, NULL, 0)]
    {
      buf := MempMalloc(netbufPool, netbufs.Keys);
      if buf != NULL {
        Weaken(View(), buf);
        assert {} + {buf} == {buf} && {} - {buf} == {};
        AssignedGood(View(), buf, Netbuf(NULL, NULL, NULL, 0), {});
        netbufs := netbufs[buf := Netbuf(NULL, NULL, NULL, 0)];
      }
    }

    /** Memory once the packet of `n`, if it has one, is released. */
    static ghost function Released(s: Store, n: Ptr): Memory {
      if ByNetbuf(n) in s.chains then Without(s.memory, s.chains[ByNetbuf(n)], |s.chains[ByNetbuf(n)]|) else s.memory
    }

    /** A record of a pool that the packet of `n` takes up is free then. */
    static lemma ReleasedIsFree(s: Store, n: Ptr, pool: Pool)
      requires Good(s) && ByNetbuf(n) in s.chains && exists q :: q in s.chains[ByNetbuf(n)] && q in pool
      ensures !(pool <= Released(s, n).Keys)
    {
      hide Good, Consistent;
      var c := s.chains[ByNetbuf(n)];
      var q :| q in c && q in pool;
      assert c[..|c|] == c && q in Elements(c);
    }

    /** `pbuf_free` of the packet of `buf`, if it has one; the fields of `buf` are still to be set. */
    method FreePacket(buf: Ptr)
      requires Good(View()) && buf in netbufs
      modifies this`chains, this`place, buffers
      ensures Consistent(View(), {buf}) && ByNetbuf(buf) !in chains
      ensures Packets(View()) == old(Contents()) - {ByNetbuf(buf)} && chains == old(chains) - {ByNetbuf(buf)}
      ensures netbufs[buf].p != NULL ==> netbufs[buf].ptr != NULL && netbufs[buf].ptr !in buffers.memory
      ensures buffers.memory == Released(old(View()), buf)
    {
      hide Consistent, Good, Packets, Chain, Elements, Without;
      ghost var s, o := View(), ByNetbuf(buf);
      if netbufs[buf].p != NULL {
        HasChain(s, buf);
        ghost var c := chains[o];
        CursorFreed(s, buf);
        DroppedConsistent(s, buf);
        ChainOf(s, o);
        ChainLinks(s.memory, c);
        assert c[..|c|] == c;
        var count := buffers.PbufFree(netbufs[buf].p, c, |c|);
        chains, place := chains - {o}, place - Elements(c);
        assert View() == Dropped(s, o);
      } else {
        NoChain(s, buf);
      }
    }

    /** The cursor of a netbuf is on a buffer that goes with its packet. */
    static lemma CursorFreed(s: Store, n: Ptr)
      requires Good(s) && n in s.netbufs && s.netbufs[n].p != NULL && ByNetbuf(n) in s.chains
      ensures var c := s.chains[ByNetbuf(n)];
              s.netbufs[n].ptr != NULL && s.netbufs[n].ptr !in Without(s.memory, c, |c|)
    {
      CursorIsThere(s, n);
      var c := s.chains[ByNetbuf(n)];
      assert c[..|c|] == c;
    }

    static lemma ChainLinks(m: Memory, c: seq<Ptr>)
      requires Chain(m, c)
      ensures Present(m, c) && Linked(m, c)
    {
    }

    static lemma ChainOf(s: Store, o: Owner)
      requires Good(s) && o in s.chains
      ensures var c := s.chains[o]; c != [] && Chain(s.memory, c) && Doomed(s.memory, c, |c|)
    {
      assert HeldBy(s, o);
    }

    static lemma NoChain(s: Store, n: Ptr)
      requires Good(s) && n in s.netbufs && s.netbufs[n].p == NULL
      ensures ByNetbuf(n) !in s.chains && Consistent(s, {n})
      ensures Packets(s) == Packets(s) - {ByNetbuf(n)} && s.chains == s.chains - {ByNetbuf(n)}
    {
      assert Pointing(s, n);
      if ByNetbuf(n) in s.chains {
        ChainOf(s, ByNetbuf(n));
      }
      hide Held, Owned;
    }

    method NetbufDelete(buf: Ptr)
      requires Good(View()) && (buf == NULL || buf in netbufs)
      modifies this, buffers
      ensures Good(View()) && netbufs == old(netbufs) - {buf} && Contents() == old(Contents()) - {ByNetbuf(buf)}
      ensures chains == old(chains) - {ByNetbuf(buf)} && (old(Tidy()) ==> Tidy())
    {
      hide Consistent, Good, Packets, Pointing;
      if buf == NULL {
        NullHolds(View());
        return;
      }
      if netbufs[buf].p != NULL {
        FreePacket(buf);
        PointsNowhere(View(), buf, netbufs[buf].(p := NULL, ptr := NULL));
        Assign(buf, netbufs[buf].(p := NULL, ptr := NULL));
        Weaken(View(), buf);
      } else {
        NoChain(View(), buf);
      }
      GiveBack(buf);
    }

    /** `memp_free` of a netbuf that holds no packet. */
    method GiveBack(buf: Ptr)
      requires buf in netbufs && Consistent(View(), {buf}) && ByNetbuf(buf) !in chains
      modifies this`netbufs
      ensures Good(View()) && netbufs == old(netbufs) - {buf} && Contents() == old(Packets(View()))
    {
      ReturnedGood(View(), buf);
      netbufs := netbufs - {buf};
    }

    /** The fields of a netbuf are set, so that its packet is its chain again. */
    method Assign(buf: Ptr, b: Netbuf)
      requires buf != NULL && Consistent(View(), {buf}) && Pointing(Assigned(View(), buf, b), buf)
      modifies this`netbufs
      ensures Good(View()) && netbufs == old(netbufs)[buf := b] && Contents() == old(Packets(View()))
    {
      assert {} + {buf} == {buf} && {} - {buf} == {};
      AssignedGood(View(), buf, b, {});
      netbufs := netbufs[buf := b];
    }

    static lemma PointsNowhere(s: Store, n: Ptr, b: Netbuf)
      requires ByNetbuf(n) !in s.chains && b.p == NULL
      ensures Pointing(Assigned(s, n, b), n)
    {
    }

    static lemma PointsAtOne(s: Store, n: Ptr, b: Netbuf, q: Ptr)
      requires ByNetbuf(n) in s.chains && s.chains[ByNetbuf(n)] == [q] && b.p == b.ptr == q
      requires q in s.place && s.place[q] == ByNetbuf(n)
      ensures Pointing(Assigned(s, n, b), n)
    {
    }

    static lemma Weaken(s: Store, n: Ptr)
      requires Good(s)
      ensures Consistent(s, {n}) && NULL !in s.netbufs
      ensures ByNetbuf(n) in s.chains ==> n in s.netbufs
    {
      hide Held, Owned, Pointing;
    }

    static lemma GoodIs(s: Store)
      ensures Good(s) <==> Consistent(s, {})
    {
    }

    static lemma NullHolds(s: Store)
      requires Good(s)
      ensures ByNetbuf(NULL) !in s.chains && NULL !in s.netbufs
      ensures Packets(s) == Packets(s) - {ByNetbuf(NULL)} && s.chains == s.chains - {ByNetbuf(NULL)} && s.netbufs - {NULL} == s.netbufs
    {
      hide Held, Owned;
    }

    method NetbufFree(buf: Ptr)
      requires Good(View()) && (buf == NULL || buf in netbufs)
      modifies this, buffers
      ensures Good(View()) && Contents() == old(Contents()) - {ByNetbuf(buf)} && chains == old(chains) - {ByNetbuf(buf)}
      ensures netbufs == if buf == NULL then old(netbufs) else old(netbufs)[buf := old(netbufs[buf]).(p := NULL, ptr := NULL)]
      ensures old(Tidy()) ==> Tidy()
    {
      if buf == NULL {
        NullHolds(View());
        return;
      }
      hide Consistent, Good, Packets, Pointing;
      FreePacket(buf);
      PointsNowhere(View(), buf, netbufs[buf].(p := NULL, ptr := NULL));
      Assign(buf, netbufs[buf].(p := NULL, ptr := NULL));
    }

    /** The new buffer `q` becomes the packet of `buf`. */
    ghost method Attach(buf: Ptr, q: Ptr, s: Store)
      requires Consistent(s, {buf}) && buf in netbufs && ByNetbuf(buf) !in chains && q != NULL
      requires q !in s.memory && q in buffers.memory && View() == s.(memory := s.memory[q := buffers.memory[q]])
      requires var b := buffers.memory[q]; b.next == NULL && b.ref == 1 && b.totLen == b.len <= |b.payload|
      modifies this`chains, this`place
      ensures Consistent(View(), {buf}) && chains == old(chains)[ByNetbuf(buf) := [q]] && q in place && place[q] == ByNetbuf(buf)
      ensures var b := buffers.memory[q]; Packets(View()) == Packets(s)[ByNetbuf(buf) := [b.payload[..b.len]]]
    {
      hide Consistent, Packets;
      AddedConsistent(s, buf, q, buffers.memory[q]);
      chains, place := chains[ByNetbuf(buf) := [q]], place[q := ByNetbuf(buf)];
      assert View() == Added(s, ByNetbuf(buf), q, buffers.memory[q]);
    }

    /** The netbuf whose packet was freed gets the new buffer `q` as its packet, and the cursor on it. */
    method Adopt(buf: Ptr, q: Ptr, ghost s: Store, ghost before: map<Owner, seq<seq<byte>>>)
      requires Consistent(s, {buf}) && buf in netbufs && buf != NULL && ByNetbuf(buf) !in chains && q != NULL
      requires q !in s.memory && q in buffers.memory && View() == s.(memory := s.memory[q := buffers.memory[q]])
      requires var b := buffers.memory[q]; b.next == NULL && b.ref == 1 && b.totLen == b.len <= |b.payload|
      requires Packets(s) == before - {ByNetbuf(buf)}
      modifies this
      ensures Good(View()) && netbufs == old(netbufs)[buf := old(netbufs[buf]).(p := q, ptr := q)]
      ensures chains == old(chains)[ByNetbuf(buf) := [q]]
      ensures var b := buffers.memory[q]; Contents() == before[ByNetbuf(buf) := [b.payload[..b.len]]]
    {
      hide Consistent, Good, Packets, Pointing;
      Attach(buf, q, s);
      PointsAtOne(View(), buf, netbufs[buf].(p := q, ptr := q), q);
      Assign(buf, netbufs[buf].(p := q, ptr := q));
      Replaced(before, ByNetbuf(buf), [buffers.memory[q].payload[..buffers.memory[q].len]]);
    }

    static lemma Overwritten(m: Memory, q: Ptr, a: Pbuf, b: Pbuf)
      ensures m[q := a][q := b] == m[q := b]
    {
    }

    static lemma Replaced<T>(m: map<Owner, seq<T>>, o: Owner, x: seq<T>)
      ensures (m - {o})[o := x] == m[o := x]
    {
    }

    /** The new packet is one buffer of `size` bytes, whatever they are. When there is no memory, the cursor stays
        where it was: if it was on a packet, it dangles then, on a buffer that is no longer in use. */
    method NetbufAlloc(buf: Ptr, size: u16) returns (data: Option<seq<byte>>)
      requires Good(View()) && (buf == NULL || buf in netbufs)
      modifies this, buffers
      ensures Good(View()) && (buf == NULL ==> data == None && View() == old(View()))
      ensures data.Some? <==>
                buf != NULL && var m := Released(old(View()), buf); heap(m, size) != NULL && heap(m, size) !in m
      ensures buf != NULL && data == None ==>
                && Contents() == old(Contents()) - {ByNetbuf(buf)} && chains == old(chains) - {ByNetbuf(buf)}
                && netbufs == old(netbufs)[buf := old(netbufs[buf]).(p := NULL)]
      ensures buf != NULL && data == None && old(netbufs[buf].p) != NULL ==>
                Dangling(buf) && netbufs[buf].ptr == old(netbufs[buf].ptr) && netbufs[buf].ptr !in buffers.memory
      ensures old(Tidy()) && (data == None && buf != NULL ==> old(netbufs[buf].p) == NULL) ==> Tidy()
      ensures data.Some? ==> buf != NULL && |data.value| == size && Contents() == old(Contents())[ByNetbuf(buf) := [data.value]]
      ensures data.Some? ==> buf in netbufs && netbufs[buf].p == netbufs[buf].ptr == heap(Released(old(View()), buf), size) != NULL
      ensures data.Some? ==> chains == old(chains)[ByNetbuf(buf) := [netbufs[buf].p]]
      ensures data.Some? ==> netbufs == old(netbufs)[buf := old(netbufs[buf]).(p := netbufs[buf].p, ptr := netbufs[buf].p)]
    {
      hide Consistent, Good, Packets, Pointing, Released;
      data := None;
      if buf == NULL {
        return;
      }
      Weaken(View(), buf);
      FreePacket(buf);
      var payload: seq<byte> := *;
      if |payload| != size {
        payload := seq(size, _ => 0);
      }
      assert payload[..size] == payload;
      ghost var s := View();
      var q := PbufAlloc(PbufRam, payload, size);
      if q == NULL {
        PointsNowhere(View(), buf, netbufs[buf].(p := NULL));
        Assign(buf, netbufs[buf].(p := NULL));
      } else {
        Adopt(buf, q, s, old(Contents()));
        Replaced(old(chains), ByNetbuf(buf), [q]);
        data := Some(payload);
      }
    }

    /** The new packet is one buffer that refers to `data`. */
    method NetbufRef(buf: Ptr, data: seq<byte>, size: u16) returns (err: int)
      requires Good(View()) && (buf == NULL || buf in netbufs) && size <= |data|
      modifies this, buffers
      ensures Good(View()) && err in {ERR_OK, ERR_MEM, ERR_ARG}
      ensures err == ERR_ARG <==> buf == NULL
      ensures err == ERR_MEM <==> buf != NULL && refPool <= Released(old(View()), buf).Keys
      ensures err == ERR_ARG ==> View() == old(View())
      ensures old(Tidy()) ==> Tidy()
      ensures err == ERR_MEM ==>
                && Contents() == old(Contents()) - {ByNetbuf(buf)} && chains == old(chains) - {ByNetbuf(buf)}
                && netbufs == old(netbufs)[buf := old(netbufs[buf]).(p := NULL, ptr := NULL)]
      ensures err == ERR_OK ==> Contents() == old(Contents())[ByNetbuf(buf) := [data[..size]]]
      ensures err == ERR_OK ==> buf in netbufs && netbufs[buf].p == netbufs[buf].ptr != NULL
      ensures err == ERR_OK ==> chains == old(chains)[ByNetbuf(buf) := [netbufs[buf].p]]
      ensures err == ERR_OK ==> netbufs == old(netbufs)[buf := old(netbufs[buf]).(p := netbufs[buf].p, ptr := netbufs[buf].p)]
    {
      hide Consistent, Good, Packets, Pointing, Released;
      if buf == NULL {
        return ERR_ARG;
      }
      Weaken(View(), buf);
      FreePacket(buf);
      ghost var s := View();
      var q := PbufAlloc(PbufRef, [], 0);
      if q == NULL {
        PointsNowhere(View(), buf, netbufs[buf].(p := NULL, ptr := NULL));
        Assign(buf, netbufs[buf].(p := NULL, ptr := NULL));
        err := ERR_MEM;
      } else {
        Overwritten(s.memory, q, buffers.memory[q], Pbuf(NULL, data, size, size, 1));
        buffers.memory := buffers.memory[q := buffers.memory[q].(payload := data, len := size, totLen := size)];
        Adopt(buf, q, s, old(Contents()));
        Replaced(old(chains), ByNetbuf(buf), [q]);
        err := ERR_OK;
      }
    }

    // -------------------------------------------------------------------------------------------
    // A netbuf for a packet that the stack received

    /** `memp_malloc` of a netbuf: its fields are whatever they are. */
    method MempNetbuf() returns (buf: Ptr)
      requires Good(View())
      modifies this`netbufs
      ensures buf == NULL <==> !old(NetbufLeft())
      ensures buf == NULL ==> netbufs == old(netbufs)
      ensures buf != NULL ==> buf !in old(netbufs) && buf in netbufs && netbufs == old(netbufs)[buf := netbufs[buf]]
      ensures buf != NULL ==> Consistent(View(), {buf}) && ByNetbuf(buf) !in chains && Packets(View()) == old(Contents())
    {
      buf := MempMalloc(netbufPool, netbufs.Keys);
      if buf != NULL {
        var b: Netbuf := *;
        Uninitialised(View(), buf, b);
        netbufs := netbufs[buf := b];
      }
    }

    static lemma Uninitialised(s: Store, n: Ptr, b: Netbuf)
      requires Good(s) && n != NULL && n !in s.netbufs
      ensures Consistent(Assigned(s, n, b), {n}) && ByNetbuf(n) !in s.chains
      ensures Packets(Assigned(s, n, b)) == Packets(s)
    {
      hide Held, Owned, Pointing, Packets;
      var t := Assigned(s, n, b);
      HeldSame(s, t);
      forall m | m in s.netbufs
        ensures Pointing(t, m)
      {
        PointingSame(s, t, m);
      }
    }

    /** The fields of `buf` are set to the packet at `p`, which another part of the stack had. */
    method Give(buf: Ptr, p: Ptr, ghost id: nat)
      requires Consistent(View(), {buf}) && buf in netbufs && buf != NULL && ByNetbuf(buf) !in chains
      requires Loose(id) in chains && p == First(chains[Loose(id)])
      modifies this
      ensures Good(View()) && netbufs == old(netbufs)[buf := Netbuf(p, p, NULL, 0)]
      ensures Loose(id) in old(Packets(View()))
      ensures Contents() == (old(Packets(View())) - {Loose(id)})[ByNetbuf(buf) := old(Packets(View()))[Loose(id)]]
      ensures chains == (old(chains) - {Loose(id)})[ByNetbuf(buf) := old(chains)[Loose(id)]]
    {
      ghost var s := View();
      GivenPoints(s, Loose(id), buf, Netbuf(p, p, NULL, 0));
      assert Holders.Held(s);
      hide Consistent, Good, Packets, Pointing;
      PassedConsistent(s, Loose(id), ByNetbuf(buf), buf);
      ghost var t := Passed(s, Loose(id), ByNetbuf(buf));
      chains, place := t.chains, t.place;
      assert View() == t;
      Assign(buf, Netbuf(p, p, NULL, 0));
    }

    static lemma GivenPoints(s: Store, o: Owner, n: Ptr, b: Netbuf)
      requires Holders.Held(s) && Owned(s) && o in s.chains && ByNetbuf(n) !in s.chains && b.p == b.ptr == First(s.chains[o])
      ensures Pointing(Assigned(Passed(s, o, ByNetbuf(n)), n, b), n)
    {
      PlacedWith(s, o);
      hide Holders.Held, Owned;
    }

    // -------------------------------------------------------------------------------------------
    // A packet that comes in

    static lemma SpareId(s: Store) returns (id: nat)
      ensures Loose(id) !in s.chains
    {
      var used := set o | o in s.chains && o.Loose? :: o.id;
      FreshAddress(used);
      id :| id != NULL && id !in used;
    }

    /** A new buffer with the bytes `data` that a driver received, under the new name `id`. */
    method ArriveOne(data: seq<byte>) returns (q: Ptr, ghost id: nat)
      requires Good(View()) && |data| < 0x1_0000
      modifies this`chains, this`place, buffers
      ensures Good(View()) && Loose(id) !in old(chains) && Loose(id) !in old(Contents())
      ensures q == NULL <==> old(BuffersLeft()) == 0
      ensures BuffersLeft() == old(BuffersLeft()) - if q == NULL then 0 else 1
      ensures q == NULL ==> chains == old(chains) && Contents() == old(Contents())
      ensures q != NULL ==> chains == old(chains)[Loose(id) := [q]] && Contents() == old(Contents())[Loose(id) := [data]]
    {
      hide Good, Packets, Free;
      ghost var s := View();
      GoodHeld(s);
      id := SpareId(s);
      NoneFree(bufferPool, buffers.memory);
      q := PbufAlloc(PbufPool, data, |data|);
      if q != NULL {
        FreeLess(bufferPool, s.memory, buffers.memory, q);
        assert data[..|data|] == data;
        AddedGood(s, Loose(id), q, buffers.memory[q]);
        chains, place := chains[Loose(id) := [q]], place[q := Loose(id)];
        assert View() == Added(s, Loose(id), q, buffers.memory[q]);
      }
    }

    /** One more buffer for the packet `id` at `p`, put behind it as the serial driver does; without memory the
        packet stays as it is. */
    method ArriveMore(p: Ptr, ghost id: nat, data: seq<byte>) returns (ok: bool)
      requires Good(View()) && Loose(id) in chains && p == First(chains[Loose(id)]) && |data| < 0x1_0000
      modifies this`chains, this`place, buffers
      ensures Good(View()) && Loose(id) in old(Contents())
      ensures ok <==> old(BuffersLeft()) > 0
      ensures BuffersLeft() == old(BuffersLeft()) - if ok then 1 else 0
      ensures !ok ==> chains == old(chains) && Contents() == old(Contents())
      ensures ok ==> Loose(id) in chains && p == First(chains[Loose(id)])
      ensures ok ==> chains - {Loose(id)} == old(chains) - {Loose(id)}
      ensures ok ==> Contents() == old(Contents())[Loose(id) := old(Contents())[Loose(id)] + [data]]
    {
      hide Good, Packets, Merged, Catenated, Chain, Apart, Linked, Present, Free;
      GoodHeld(View());
      ghost var was, had := chains, Contents();
      ghost var k;
      var q;
      q, k := ArriveOne(data);
      if q == NULL {
        return false;
      }
      ghost var s, o, u := View(), Loose(id), Loose(k);
      LooseApart(s, o, u);
      buffers.PbufCat(p, q, s.chains[o], s.chains[u]);
      MergedGood(s, o, u);
      MergedIs(s, o, u);
      ghost var t := Merged(s, o, u);
      chains, place := t.chains, t.place;
      assert View() == t;
      SameLeft(bufferPool, s.memory, t.memory);
      Grown(was, o, u, [q]);
      Grown(had, o, u, [data]);
      ok := true;
    }

    static lemma LooseApart(s: Store, o: Owner, u: Owner)
      requires Good(s) && o in s.chains && u in s.chains && o != u
      ensures Holders.Held(s) && Apart(s.chains[o], s.chains[u]) && s.chains[o] != [] && s.chains[u] != []
      ensures Present(s.memory, s.chains[o]) && Present(s.memory, s.chains[u]) && Linked(s.memory, s.chains[o])
    {
      ChainOf(s, o);
      ChainOf(s, u);
      ApartChains(s, o, u);
    }

    static lemma Grown<T>(m: map<Owner, seq<T>>, o: Owner, u: Owner, x: seq<T>)
      requires o in m && u !in m && o != u
      ensures Appended(m[u := x], o, u) == m[o := m[o] + x] && Appended(m[u := x], o, u) - {o} == m - {o}
    {
      SameMap(Appended(m[u := x], o, u), m[o := m[o] + x]);
    }

    static lemma FirstOne(q: Ptr)
      ensures First([q]) == q
    {
    }

    static lemma TakenBack<T>(m: map<Owner, seq<T>>, o: Owner, x: seq<T>)
      requires o !in m
      ensures m[o := x] - {o} == m
    {
    }

    /** Which buffers are in use is determined by the chains. */
    static lemma SameBuffers(s: Store, t: Store)
      requires Good(s) && Good(t) && s.chains == t.chains
      ensures s.memory.Keys == t.memory.Keys
    {
      GoodIs(s);
      GoodIs(t);
      BuffersIn(s);
      BuffersIn(t);
    }

    static lemma BuffersIn(s: Store)
      requires Good(s)
      ensures forall q :: q in s.memory <==> exists o :: o in s.chains && q in s.chains[o]
    {
      DisjointUnion(s);
    }

    static lemma SameLeft(pool: Pool, m: Memory, n: Memory)
      requires m.Keys == n.Keys
      ensures Free(pool, m) == Free(pool, n)
    {
    }

    twostate lemma SameChainsSameLeft()
      requires old(Good(View())) && Good(View()) && chains == old(chains)
      ensures BuffersLeft() == old(BuffersLeft())
    {
      SameBuffers(old(View()), View());
    }

    /** `pbuf_free` of the packet `id`. */
    method Discard(p: Ptr, ghost id: nat)
      requires Good(View()) && Loose(id) in chains && p == First(chains[Loose(id)])
      modifies this`chains, this`place, buffers
      ensures Good(View()) && chains == old(chains) - {Loose(id)} && Contents() == old(Contents()) - {Loose(id)}
    {
      hide Good, Packets;
      ghost var s, o := View(), Loose(id);
      ghost var c := chains[o];
      ChainOf(s, o);
      DroppedGood(s, o);
      assert c[..|c|] == c;
      var count := buffers.PbufFree(p, c, |c|);
      chains, place := chains - {o}, place - Elements(c);
      assert View() == Dropped(s, o);
    }

    /** A packet comes in: one buffer for each of the `parts`, put behind each other; without memory for one of
        them those before it are freed, as in `pbuf_alloc`. Every other packet stays. */
    method Arrive(parts: seq<seq<byte>>) returns (p: Ptr, ghost id: nat)
      requires Good(View()) && parts != [] && forall i :: 0 <= i < |parts| ==> |parts[i]| < 0x1_0000
      modifies this`chains, this`place, buffers
      ensures Good(View()) && Loose(id) !in old(chains)
      ensures p != NULL <==> |parts| <= old(BuffersLeft())
      ensures BuffersLeft() == old(BuffersLeft()) - if p == NULL then 0 else |parts|
      ensures p == NULL ==> chains == old(chains) && Contents() == old(Contents())
      ensures p != NULL ==> Loose(id) in chains && p == First(chains[Loose(id)]) && chains - {Loose(id)} == old(chains)
      ensures p != NULL ==> Contents() == old(Contents())[Loose(id) := parts]
    {
      hide Good, Packets, View, Contents, First, BuffersLeft;
      p, id := ArriveOne(parts[0]);
      if p == NULL {
        return;
      }
      var i := 1;
      assert parts[..1] == [parts[0]];
      FirstOne(p);
      while i < |parts|
        invariant 1 <= i <= |parts| && Good(View()) && Loose(id) in chains && p == First(chains[Loose(id)])
        invariant chains - {Loose(id)} == old(chains) && Contents() == old(Contents())[Loose(id) := parts[..i]]
        invariant BuffersLeft() == old(BuffersLeft()) - i
      {
        var ok := ArriveMore(p, id, parts[i]);
        if !ok {
          Discard(p, id);
          TakenBack(old(Contents()), Loose(id), parts[..i]);
          SameChainsSameLeft();
          p := NULL;
          return;
        }
        assert parts[..i + 1] == parts[..i] + [parts[i]];
        i := i + 1;
      }
      assert parts[..i] == parts;
    }

    static lemma HasChain(s: Store, n: Ptr)
      requires Good(s) && n in s.netbufs && s.netbufs[n].p != NULL
      ensures ByNetbuf(n) in s.chains && s.netbufs[n].p == First(s.chains[ByNetbuf(n)])
      ensures var c := s.chains[ByNetbuf(n)]; c != [] && Chain(s.memory, c)
    {
      assert Pointing(s, n);
      ChainOf(s, ByNetbuf(n));
    }

    /** The cursor of a netbuf with nothing in between may be set to its packet. */
    static lemma PointsAtPacket(s: Store, n: Ptr, except: set<Ptr>)
      requires Consistent(s, except) && n in s.netbufs && n !in except
      ensures n != NULL && Pointing(Assigned(s, n, s.netbufs[n].(ptr := s.netbufs[n].p)), n)
    {
      assert Pointing(s, n);
      if ByNetbuf(n) in s.chains {
        assert HeldBy(s, ByNetbuf(n));
      }
      hide Owned;
    }

    static lemma SpareName(s: Store) returns (k: nat)
      ensures Lost(k) !in s.chains
    {
      var used := set o | o in s.chains && o.Lost? :: o.tag;
      FreshAddress(used);
      k :| k != NULL && k !in used;
    }

    /** What holders have when what `tail` has was put behind what `head` has: when `head` has nothing, what
        `tail` had is in use but held by nobody (`Lost(k)`). */
    static ghost function Chained<T>(m: map<Owner, seq<T>>, head: Ptr, tail: Ptr, k: nat): map<Owner, seq<T>> {
      var h, t := ByNetbuf(head), ByNetbuf(tail);
      if t !in m then m
      else if h in m then Appended(m, h, t)
      else (m - {t})[Lost(k) := m[t]]
    }

    /** `pbuf_cat` of the packets of two netbufs; the fields of `tail` are still to be given up. */
    method CatPackets(head: Ptr, tail: Ptr) returns (ghost k: nat)
      requires Good(View()) && head in netbufs && tail in netbufs && (head == tail ==> netbufs[head].p == NULL)
      modifies this`chains, this`place, buffers
      ensures Consistent(View(), {tail}) && ByNetbuf(tail) !in chains && Lost(k) !in old(chains)
      ensures Packets(View()) == Chained(old(Contents()), head, tail, k) && chains == Chained(old(chains), head, tail, k)
    {
      hide Consistent, Good, Packets, Pointing, Merged, Passed, Holders.Held, Catenated, Apart, Chain, Linked, Chained, Cat, PacketOf;
      ghost var s := View();
      k := SpareName(s);
      PacketsApart(s, head, tail);
      Recorded(s, head, tail, k);
      ChainParts(s, head, tail);
      buffers.PbufCat(netbufs[head].p, netbufs[tail].p, PacketOf(s, head), PacketOf(s, tail));
      ghost var t := Cat(s, head, tail, k);
      chains, place := t.chains, t.place;
      assert View() == t;
    }

    static lemma ChainParts(s: Store, head: Ptr, tail: Ptr)
      requires Chain(s.memory, PacketOf(s, head)) && Chain(s.memory, PacketOf(s, tail))
      ensures Present(s.memory, PacketOf(s, head)) && Linked(s.memory, PacketOf(s, head))
      ensures Present(s.memory, PacketOf(s, tail))
    {
    }

    /** The store after the catenation. */
    static ghost function Cat(s: Store, head: Ptr, tail: Ptr, k: nat): Store
      requires Holders.Held(s)
    {
      if ByNetbuf(tail) !in s.chains then s
      else if ByNetbuf(head) in s.chains && head != tail then Merged(s, ByNetbuf(head), ByNetbuf(tail))
      else Passed(s, ByNetbuf(tail), Lost(k))
    }

    static lemma Recorded(s: Store, head: Ptr, tail: Ptr, k: nat)
      requires Good(s) && head in s.netbufs && tail in s.netbufs && (head == tail ==> s.netbufs[head].p == NULL)
      requires Lost(k) !in s.chains
      ensures Holders.Held(s)
      ensures var t, a, b := Cat(s, head, tail, k), PacketOf(s, head), PacketOf(s, tail);
              && Consistent(t, {tail}) && ByNetbuf(tail) !in t.chains && Packets(t) == Chained(Packets(s), head, tail, k)
              && t.chains == Chained(s.chains, head, tail, k) && t.netbufs == s.netbufs
              && t.memory == if a == [] || b == [] then s.memory else Catenated(s.memory, a, b)
    {
      hide Consistent, Packets, Pointing, Appended, Merged, Passed, Catenated, Chain;
      GoodHeld(s);
      PacketsApart(s, head, tail);
      if PacketOf(s, tail) == [] {
        NoChain(s, tail);
      } else if PacketOf(s, head) != [] {
        MergedConsistent(s, head, tail);
        MergedIs(s, ByNetbuf(head), ByNetbuf(tail));
      } else {
        Weaken(s, tail);
        PassedConsistent(s, ByNetbuf(tail), Lost(k), tail);
        PassedIs(s, ByNetbuf(tail), Lost(k));
      }
    }

    /** The chain that a netbuf holds, if any. */
    static ghost function PacketOf(s: Store, n: Ptr): seq<Ptr> {
      if ByNetbuf(n) in s.chains then s.chains[ByNetbuf(n)] else []
    }

    static lemma PacketsApart(s: Store, n: Ptr, m: Ptr)
      requires Good(s) && n in s.netbufs && m in s.netbufs && (n == m ==> s.netbufs[n].p == NULL)
      ensures s.netbufs[n].p == First(PacketOf(s, n)) && s.netbufs[m].p == First(PacketOf(s, m))
      ensures Chain(s.memory, PacketOf(s, n)) && Chain(s.memory, PacketOf(s, m)) && Apart(PacketOf(s, n), PacketOf(s, m))
      ensures PacketOf(s, m) == [] <==> s.netbufs[m].p == NULL
      ensures PacketOf(s, n) == [] <==> ByNetbuf(n) !in s.chains
      ensures PacketOf(s, m) == [] <==> ByNetbuf(m) !in s.chains
    {
      assert Pointing(s, n) && Pointing(s, m);
      if ByNetbuf(n) in s.chains {
        ChainOf(s, ByNetbuf(n));
      }
      if ByNetbuf(m) in s.chains {
        ChainOf(s, ByNetbuf(m));
      }
      if ByNetbuf(n) in s.chains && ByNetbuf(m) in s.chains {
        ApartChains(s, ByNetbuf(n), ByNetbuf(m));
      }
    }

    static lemma MergedIs(s: Store, o: Owner, u: Owner)
      requires Holders.Held(s) && o in s.chains && u in s.chains && o != u
      ensures var t := Merged(s, o, u);
              && t.memory == Catenated(s.memory, s.chains[o], s.chains[u]) && t.netbufs == s.netbufs
              && t.chains == Appended(s.chains, o, u)
    {
    }

    static lemma PassedIs(s: Store, o: Owner, u: Owner)
      requires o in s.chains && u != o
      ensures var t := Passed(s, o, u);
              && t.memory == s.memory && t.netbufs == s.netbufs && o !in t.chains
              && t.chains == (s.chains - {o})[u := s.chains[o]]
    {
    }

    /** The packet of `tail` goes behind the packet of `head`, whose cursor goes back to the start, and
        the netbuf `tail` is given back. */
    method NetbufChain(head: Ptr, tail: Ptr) returns (ghost k: nat)
      requires Good(View()) && (head == NULL || head in netbufs) && (tail == NULL || tail in netbufs)
      requires head != NULL && head == tail ==> netbufs[head].p == NULL
      modifies this, buffers
      ensures Good(View())
      ensures (head == NULL || tail == NULL ==> View() == old(View())) && (old(Tidy()) ==> Tidy())
      ensures head != NULL && tail != NULL ==>
                netbufs == old(netbufs)[head := old(netbufs[head]).(ptr := old(netbufs[head]).p)] - {tail}
      ensures head != NULL && tail != NULL ==>
                && Lost(k) !in old(chains) && Contents() == Chained(old(Contents()), head, tail, k)
                && chains == Chained(old(chains), head, tail, k)
    {
      hide Consistent, Good, Packets, Pointing, Chained;
      k := 0;
      if head == NULL || tail == NULL {
        return;
      }
      k := CatPackets(head, tail);
      Rewound(View(), head, tail);
      netbufs := netbufs[head := netbufs[head].(ptr := netbufs[head].p)];
      GiveBack(tail);
    }

    /** `netbuf_chain` with one netbuf twice that has a packet: the netbuf is given back, its buffers stay in use,
        and nothing well formed starts with the first of them. */
    method NetbufChainSelf(head: Ptr)
      requires Good(View()) && head in netbufs && netbufs[head].p != NULL
      modifies this`netbufs, buffers
      ensures netbufs == old(netbufs) - {head} && buffers.memory.Keys == old(buffers.memory.Keys)
      ensures forall q :: q in old(buffers.memory) && q !in old(chains)[ByNetbuf(head)] ==> buffers.memory[q] == old(buffers.memory[q])
      ensures var p := old(netbufs[head].p);
              forall d :: !(d != [] && d[0] == p && Present(buffers.memory, d) && Linked(buffers.memory, d))
    {
      hide Good, Looped, Apart, Catenated;
      HasChain(View(), head);
      ghost var m, c := buffers.memory, chains[ByNetbuf(head)];
      buffers.PbufCat(netbufs[head].p, netbufs[head].p, c, c);
      LoopedElsewhere(m, buffers.memory, c);
      forall d
        ensures !(d != [] && d[0] == old(netbufs[head].p) && Present(buffers.memory, d) && Linked(buffers.memory, d))
      {
        LoopedIsNoChain(m, buffers.memory, c, d);
      }
      netbufs := netbufs[head := netbufs[head].(ptr := netbufs[head].p)];
      netbufs := netbufs - {head};
    }

    static lemma LoopedElsewhere(m: Memory, r: Memory, c: seq<Ptr>)
      requires Present(m, c) && c != [] && Looped(m, r, c)
      ensures r.Keys == m.Keys && forall q :: q in m && q !in c ==> r[q] == m[q]
    {
    }

    /** The cursor of `head` may be set back while `tail` is being given up. */
    static lemma Rewound(s: Store, head: Ptr, tail: Ptr)
      requires Consistent(s, {tail}) && head in s.netbufs
      requires head == tail ==> ByNetbuf(tail) !in s.chains && s.netbufs[head].p == NULL
      ensures var t := Assigned(s, head, s.netbufs[head].(ptr := s.netbufs[head].p));
              Consistent(t, {tail}) && Packets(t) == Packets(s)
    {
      hide Held, Owned, Pointing, Packets;
      var b := s.netbufs[head].(ptr := s.netbufs[head].p);
      if head == tail {
        PointsNowhere(s, head, b);
        assert {} + {head} == {tail} && {} - {head} == {} && head != NULL;
        AssignedGood(s, head, b, {});
        Weaken(Assigned(s, head, b), tail);
      } else {
        PointsAtPacket(s, head, {tail});
        assert {tail} - {head} == {tail};
        Wider(s, tail, head);
        AssignedGood(s, head, b, {tail});
      }
    }

    static lemma Wider(s: Store, n: Ptr, m: Ptr)
      requires Consistent(s, {n})
      ensures Consistent(s, {n} + {m})
    {
      hide Held, Owned, Pointing;
    }

    static lemma GoodHeld(s: Store)
      requires Good(s)
      ensures Holders.Held(s) && Packets(s).Keys == s.chains.Keys
    {
    }

    /** Catenation leaves a packet without a holder exactly when the first netbuf has none and the second
        has one; otherwise the packets are as many, or one fewer, and all of them held as before. */
    static lemma LostIff(s: Store, head: Ptr, tail: Ptr, k: nat)
      requires Good(s) && head in s.netbufs && tail in s.netbufs && head != tail && Lost(k) !in s.chains
      ensures Holders.Held(s)
      ensures var m := Chained(Packets(s), head, tail, k);
              && (Lost(k) in m <==> s.netbufs[head].p == NULL && s.netbufs[tail].p != NULL)
              && forall o :: o in m ==> o in s.chains || o == Lost(k)
    {
      hide Good, Holders.Held, Packets;
      GoodHeld(s);
      HasPacket(s, head);
      HasPacket(s, tail);
    }

    static lemma HasPacket(s: Store, n: Ptr)
      requires Good(s) && n in s.netbufs
      ensures s.netbufs[n].p == NULL <==> ByNetbuf(n) !in s.chains
    {
      if s.netbufs[n].p == NULL {
        NoChain(s, n);
      } else {
        HasChain(s, n);
      }
    }

    // -------------------------------------------------------------------------------------------
    // The cursor

    static lemma CursorIsThere(s: Store, n: Ptr)
      requires Good(s) && n in s.netbufs && s.netbufs[n].p != NULL
      ensures ByNetbuf(n) in s.chains && s.netbufs[n].ptr in s.memory
      ensures var c := s.chains[ByNetbuf(n)];
              && c != [] && Chain(s.memory, c) && c[0] == s.netbufs[n].p
              && exists i :: 0 <= i < |c| && c[i] == s.netbufs[n].ptr
    {
      HasChain(s, n);
      assert Pointing(s, n);
    }

    /** The cursor of `n` is on buffer `i` of its chain. */
    static ghost predicate On(s: Store, n: Ptr, i: nat) {
      n in s.netbufs && ByNetbuf(n) in s.chains && i < |s.chains[ByNetbuf(n)]| && s.chains[ByNetbuf(n)][i] == s.netbufs[n].ptr
    }

    /** The cursor of a netbuf with a packet is somewhere in its chain, and in one place only. */
    static lemma CursorIsOn(s: Store, n: Ptr) returns (i: nat)
      requires Good(s) && n in s.netbufs && s.netbufs[n].p != NULL
      ensures On(s, n, i) && forall j :: On(s, n, j) ==> j == i
    {
      CursorIsThere(s, n);
      i :| 0 <= i < |s.chains[ByNetbuf(n)]| && s.chains[ByNetbuf(n)][i] == s.netbufs[n].ptr;
      hide Owned, Pointers;
    }

    /** A buffer of a packet, what it holds, and what is behind it. */
    static lemma PartAt(s: Store, n: Ptr, i: nat)
      requires Good(s) && n in s.netbufs && s.netbufs[n].p != NULL
      requires ByNetbuf(n) in s.chains && i < |s.chains[ByNetbuf(n)]|
      ensures var c := s.chains[ByNetbuf(n)]; var b := c[i];
              && b != NULL && b in s.memory && b in s.place && s.place[b] == ByNetbuf(n)
              && s.memory[b].next == After(c, i) && (i + 1 < |c| ==> c[i + 1] != NULL)
              && s.memory[b].len <= |s.memory[b].payload| && |Packets(s)[ByNetbuf(n)]| == |c|
              && Packets(s)[ByNetbuf(n)][i] == s.memory[b].payload[..s.memory[b].len]
    {
      assert HeldBy(s, ByNetbuf(n));
      var c := s.chains[ByNetbuf(n)];
      assert c[i] in s.memory && s.memory[c[i]].next == After(c, i) && s.memory[c[i]].len <= |s.memory[c[i]].payload|;
      hide Owned, Pointers;
    }

    /** The cursor of `buf` is set on a buffer of its packet. */
    method Place(buf: Ptr, q: Ptr, ghost i: nat)
      requires Good(View()) && buf in netbufs && netbufs[buf].p != NULL
      requires ByNetbuf(buf) in chains && i < |chains[ByNetbuf(buf)]| && chains[ByNetbuf(buf)][i] == q
      modifies this`netbufs
      ensures Good(View()) && netbufs == old(netbufs)[buf := old(netbufs[buf]).(ptr := q)]
      ensures Contents() == old(Contents()) && On(View(), buf, i)
    {
      PartAt(View(), buf, i);
      PointsInto(View(), buf, q);
      Weaken(View(), buf);
      hide Good, Consistent, Packets, Pointing;
      Assign(buf, netbufs[buf].(ptr := q));
    }

    static lemma PointsInto(s: Store, n: Ptr, q: Ptr)
      requires Good(s) && n in s.netbufs && q in s.place && s.place[q] == ByNetbuf(n)
      ensures n != NULL && Pointing(Assigned(s, n, s.netbufs[n].(ptr := q)), n)
    {
      assert Pointing(s, n);
      hide Held, Owned;
    }

    /** The payload pointer and the length of the part under the cursor. */
    method NetbufData(buf: Ptr, ghost i: nat) returns (err: int, data: seq<byte>, len: u16)
      requires Good(View()) && (buf == NULL || (buf in netbufs && !Dangling(buf) && (netbufs[buf].p != NULL ==> On(View(), buf, i))))
      ensures err in {ERR_OK, ERR_BUF, ERR_ARG} && (err == ERR_ARG <==> buf == NULL)
      ensures err == ERR_BUF <==> buf != NULL && netbufs[buf].p == NULL
      ensures err == ERR_OK ==> buf in netbufs && netbufs[buf].p != NULL && len <= |data|
      ensures err == ERR_OK ==> ByNetbuf(buf) in Contents() && i < |Contents()[ByNetbuf(buf)]|
      ensures err == ERR_OK ==> data[..len] == Contents()[ByNetbuf(buf)][i]
    {
      data, len := [], 0;
      if buf == NULL {
        return ERR_ARG, data, len;
      }
      if netbufs[buf].ptr == NULL {
        CursorNull(View(), buf);
        return ERR_BUF, data, len;
      }
      PartAt(View(), buf, i);
      hide Good, Packets;
      err, data, len := ERR_OK, buffers.memory[netbufs[buf].ptr].payload, buffers.memory[netbufs[buf].ptr].len;
    }

    /** A cursor that is NULL belongs to a netbuf without a packet. */
    static lemma CursorNull(s: Store, n: Ptr)
      requires Good(s) && n in s.netbufs && s.netbufs[n].ptr == NULL
      ensures s.netbufs[n].p == NULL
    {
      if s.netbufs[n].p != NULL {
        var i := CursorIsOn(s, n);
        PartAt(s, n, i);
      }
    }

    /** The cursor moves one part on: -1 when it was on the last part, 1 when it is now, and 0 otherwise. */
    method NetbufNext(buf: Ptr, ghost i: nat) returns (r: int)
      requires Good(View()) && (buf == NULL || (buf in netbufs && netbufs[buf].p != NULL && On(View(), buf, i)))
      modifies this`netbufs
      ensures Good(View()) && Contents() == old(Contents())
      ensures r in {-1, 0, 1} && (r == -1 ==> netbufs == old(netbufs)) && (buf == NULL ==> r == -1)
      ensures buf != NULL ==> Moved(old(netbufs), netbufs, buf)
      ensures old(Tidy()) ==> Tidy()
      ensures buf != NULL ==>
                && ByNetbuf(buf) in Contents()
                && (r == -1 <==> i + 1 == |Contents()[ByNetbuf(buf)]|)
                && (r == 1 <==> i + 2 == |Contents()[ByNetbuf(buf)]|)
                && (r != -1 ==> On(View(), buf, i + 1))
    {
      hide Good, Packets, TidyAll;
      if buf == NULL {
        return -1;
      }
      PartAt(View(), buf, i);
      if buffers.memory[netbufs[buf].ptr].next == NULL {
        return -1;
      }
      if Tidy() {
        TidyWith(netbufs, buf, netbufs[buf].(ptr := buffers.memory[netbufs[buf].ptr].next));
      }
      PartAt(View(), buf, i + 1);
      Place(buf, buffers.memory[netbufs[buf].ptr].next, i + 1);
      r := if buffers.memory[netbufs[buf].ptr].next == NULL then 1 else 0;
    }

    /** The cursor goes back to the first part; one that was left on a released buffer is NULL again. */
    method NetbufFirst(buf: Ptr)
      requires Good(View()) && (buf == NULL || buf in netbufs)
      modifies this`netbufs
      ensures Good(View()) && Contents() == old(Contents())
      ensures netbufs == if buf == NULL then old(netbufs) else old(netbufs)[buf := old(netbufs[buf]).(ptr := old(netbufs[buf]).p)]
      ensures buf != NULL && netbufs[buf].p != NULL ==> On(View(), buf, 0)
      ensures old(Tidy()) ==> Tidy()
    {
      hide Good, Consistent, Packets, Pointing, TidyAll;
      if buf == NULL {
        return;
      }
      if Tidy() {
        TidyWith(netbufs, buf, netbufs[buf].(ptr := netbufs[buf].p));
      }
      if netbufs[buf].p == NULL {
        Weaken(View(), buf);
        GoodIs(View());
        PointsAtPacket(View(), buf, {});
        Assign(buf, netbufs[buf].(ptr := netbufs[buf].p));
      } else {
        HasChain(View(), buf);
        Place(buf, netbufs[buf].p, 0);
      }
    }

    /** Of the netbufs, only the cursor of `n` differs. */
    static ghost predicate Moved(a: map<Ptr, Netbuf>, b: map<Ptr, Netbuf>, n: Ptr) {
      n in a && n in b && b == a[n := a[n].(ptr := b[n].ptr)]
    }

    static lemma MovedOn(a: map<Ptr, Netbuf>, b: map<Ptr, Netbuf>, c: map<Ptr, Netbuf>, n: Ptr)
      requires Moved(a, b, n) && Moved(b, c, n)
      ensures Moved(a, c, n) && n in b && n in c && c[n].p == b[n].p == a[n].p
    {
    }

    /** What the first `i` parts hold. */
    static ghost function Upto(ps: seq<seq<byte>>, i: nat): seq<byte>
      requires i <= |ps|
    {
      Join(ps[..i])
    }

    static lemma UptoEnds(ps: seq<seq<byte>>)
      ensures Upto(ps, 0) == [] && Upto(ps, |ps|) == Join(ps)
    {
      assert ps[..|ps|] == ps;
    }

    static lemma UptoMore(ps: seq<seq<byte>>, i: nat)
      requires i < |ps|
      ensures Upto(ps, i) + ps[i] == Upto(ps, i + 1)
    {
      assert ps[..i + 1] == ps[..i] + [ps[i]];
      JoinOne(ps[..i], ps[i]);
    }

    static lemma Totals(s: Store, n: Ptr)
      requires Good(s) && n in s.netbufs && s.netbufs[n].p != NULL
      ensures n != NULL && s.netbufs[n].p in s.memory && ByNetbuf(n) in Packets(s) && Packets(s)[ByNetbuf(n)] != []
      ensures s.memory[s.netbufs[n].p].totLen == |Join(Packets(s)[ByNetbuf(n)])| % 0x1_0000
    {
      HasChain(s, n);
      Weaken(s, n);
      PacketsAt(s, ByNetbuf(n));
      TotLenIsLength(s.memory, s.chains[ByNetbuf(n)]);
    }

    /** A reader of the packet of `n`, which consists of `ps`, has read `i` parts: the cursor is on part `i`
        when there is `more`. */
    static ghost predicate Reading(s: Store, n: Ptr, ps: seq<seq<byte>>, out: seq<byte>, i: nat, more: bool) {
      i <= |ps| && out == Upto(ps, i) && if more then i < |ps| && On(s, n, i) else i == |ps|
    }

    static lemma ReadingStarts(s: Store, n: Ptr, ps: seq<seq<byte>>)
      requires On(s, n, 0) && ps != []
      ensures Reading(s, n, ps, [], 0, true)
    {
      UptoEnds(ps);
    }

    static lemma ReadingMoves(t: Store, u: Store, n: Ptr, ps: seq<seq<byte>>, out: seq<byte>, i: nat, r: int)
      requires Reading(t, n, ps, out, i, true) && r in {-1, 0, 1} && (r == -1 <==> i + 1 == |ps|) && (r != -1 ==> On(u, n, i + 1))
      ensures i < |ps| && Reading(u, n, ps, out + ps[i], i + 1, r >= 0)
    {
      UptoMore(ps, i);
    }

    /** One round of a reader: the part under the cursor is read, and the cursor moves to the next one. */
    method ReadPart(buf: Ptr, out: seq<byte>, ghost ps: seq<seq<byte>>, ghost i: nat) returns (more: seq<byte>, r: int)
      requires Good(View()) && buf != NULL && buf in netbufs && netbufs[buf].p != NULL
      requires ByNetbuf(buf) in Contents() && Contents()[ByNetbuf(buf)] == ps && Reading(View(), buf, ps, out, i, true)
      modifies this`netbufs
      ensures Good(View()) && Contents() == old(Contents()) && Moved(old(netbufs), netbufs, buf)
      ensures i < |ps| && Reading(View(), buf, ps, more, i + 1, r >= 0)
    {
      ghost var t := View();
      hide Good, Packets, On, Moved, Upto;
      var err, data, len := NetbufData(buf, i);
      more := out + data[..len];
      hide Reading;
      r := NetbufNext(buf, i);
      ReadingMoves(t, View(), buf, ps, out, i, r);
    }

    /** A reader of a whole packet: it starts at the first part and goes on until there is no next one. It
        ends, sees every part once and in order, and `out` is the packet's content; `tot_len` of the first
        buffer is the content's length in 16 bits. */
    method ReadAll(buf: Ptr) returns (out: seq<byte>)
      requires Good(View()) && buf in netbufs && netbufs[buf].p != NULL
      modifies this`netbufs
      ensures Good(View()) && Contents() == old(Contents()) && Moved(old(netbufs), netbufs, buf)
      ensures ByNetbuf(buf) in Contents() && out == Join(Contents()[ByNetbuf(buf)])
      ensures old(netbufs[buf].p) in buffers.memory && buffers.memory[old(netbufs[buf].p)].totLen == |out| % 0x1_0000
    {
      hide Reading, Good, Packets, On, Join, Moved;
      Totals(View(), buf);
      ghost var ps, before := Contents()[ByNetbuf(buf)], netbufs;
      NetbufFirst(buf);
      MovedBack(before, netbufs, buf);
      ReadingStarts(View(), buf, ps);
      ghost var i := 0;
      var r := 0;
      out := [];
      while r >= 0
        invariant Good(View()) && Contents() == old(Contents())
        invariant Moved(before, netbufs, buf) && buf in netbufs && netbufs[buf].p != NULL
        invariant Reading(View(), buf, ps, out, i, r >= 0)
        invariant i <= |ps|
        decreases |ps| - i
      {
        ghost var was := netbufs;
        out, r := ReadPart(buf, out, ps, i);
        MovedOn(before, was, netbufs, buf);
        i := i + 1;
      }
      ReadingEnds(View(), buf, ps, out, i);
    }

    static lemma ReadingEnds(s: Store, n: Ptr, ps: seq<seq<byte>>, out: seq<byte>, i: nat)
      requires Reading(s, n, ps, out, i, false)
      ensures out == Join(ps)
    {
      UptoEnds(ps);
    }

    static lemma MovedBack(a: map<Ptr, Netbuf>, b: map<Ptr, Netbuf>, n: Ptr)
      requires n in a && b == a[n := a[n].(ptr := a[n].p)]
      ensures Moved(a, b, n) && n in b && b[n].p == a[n].p
    {
    }
  }
}
