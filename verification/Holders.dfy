/** Who holds which packet buffers: netbufs and chains in use as a value, and what allocation, release,
    concatenation and change of hands do to it. */
module Holders {
  import opened Machine
  import opened Pbufs

  /** `struct netbuf`. */
  datatype Netbuf = Netbuf(p: Ptr, ptr: Ptr, addr: Ptr, port: nat)

  /** The holder of a chain: a netbuf, another part of the stack, or nobody any more. */
  datatype Owner = ByNetbuf(n: Ptr) | Loose(id: nat) | Lost(tag: nat)

  /** Buffers and netbufs in use; the chain of every holder, and the holder of every buffer. */
  datatype Store = Store(memory: Memory, netbufs: map<Ptr, Netbuf>, chains: map<Owner, seq<Ptr>>, place: map<Ptr, Owner>)

  /** The chain of `o` is well formed and its own. */
  ghost predicate HeldBy(s: Store, o: Owner)
    requires o in s.chains
  {
    && s.chains[o] != [] && Chain(s.memory, s.chains[o])
    && forall i {:trigger s.chains[o][i]} :: 0 <= i < |s.chains[o]| ==>
         s.chains[o][i] in s.place && s.place[s.chains[o][i]] == o
  }

  /** Every holder's chain is well formed and its own. */
  ghost predicate Held(s: Store) {
    forall o :: o in s.chains ==> HeldBy(s, o)
  }

  /** Every buffer in use is in the chain of its holder: with `Held`, the buffers in use are exactly the
      disjoint union of the chains. */
  ghost predicate Owned(s: Store) {
    && s.place.Keys == s.memory.Keys
    && forall q :: q in s.place ==> s.place[q] in s.chains && q in s.chains[s.place[q]]
  }

  /** A netbuf's packet is its chain; with a packet, its cursor is on a buffer of that chain. */
  ghost predicate Pointing(s: Store, n: Ptr)
    requires n in s.netbufs
  {
    var b, o := s.netbufs[n], ByNetbuf(n);
    && b.p == (if o in s.chains then First(s.chains[o]) else NULL)
    && (b.p != NULL ==> b.ptr in s.place && s.place[b.ptr] == o)
  }

  ghost predicate Pointers(s: Store, except: set<Ptr>) {
    && (forall n :: n in s.netbufs ==> n != NULL && (n !in except ==> Pointing(s, n)))
    && (forall o :: o in s.chains && o.ByNetbuf? ==> o.n in s.netbufs)
  }

  /** All of it; netbufs in `except` are between two assignments to their fields. */
  ghost predicate Consistent(s: Store, except: set<Ptr>) {
    Held(s) && Owned(s) && Pointers(s, except)
  }

  ghost predicate Good(s: Store) { Consistent(s, {}) }

  /** What every holder's packet consists of. */
  ghost function Packets(s: Store): (m: map<Owner, seq<seq<byte>>>)
    requires Held(s)
    ensures m.Keys == s.chains.Keys
  {
    map o | o in s.chains :: Parts(s.memory, s.chains[o])
  }

  lemma ApartChains(s: Store, o: Owner, u: Owner)
    requires Held(s) && o in s.chains && u in s.chains && o != u
    ensures Apart(s.chains[o], s.chains[u])
  {
    assert HeldBy(s, o) && HeldBy(s, u);
    forall i, j | 0 <= i < |s.chains[o]| && 0 <= j < |s.chains[u]|
      ensures s.chains[o][i] != s.chains[u][j]
    {
      assert s.place[s.chains[o][i]] == o && s.place[s.chains[u][j]] == u;
    }
  }

  /** The buffers in use are exactly the disjoint union of the chains: each is in one chain, once. */
  lemma DisjointUnion(s: Store)
    requires Held(s) && Owned(s)
    ensures forall q :: q in s.memory <==> exists o :: o in s.chains && q in s.chains[o]
    ensures forall o, u :: o in s.chains && u in s.chains && o != u ==> Apart(s.chains[o], s.chains[u])
    ensures forall o, i, j :: o in s.chains && 0 <= i < j < |s.chains[o]| ==> s.chains[o][i] != s.chains[o][j]
  {
    hide Apart, Linked, Measured, Exclusive;
    forall o | o in s.chains
      ensures HeldBy(s, o)
    {
    }
    forall q
      ensures q in s.memory <==> exists o :: o in s.chains && q in s.chains[o]
    {
      if o :| o in s.chains && q in s.chains[o] {
        PlacedWith(s, o);
      } else if q in s.memory {
        assert q in s.place && s.place[q] in s.chains && q in s.chains[s.place[q]];
      }
    }
    forall o, u | o in s.chains && u in s.chains && o != u
      ensures Apart(s.chains[o], s.chains[u])
    {
      ApartChains(s, o, u);
    }
  }

  /** A holder whose chain, and whose buffers, a change leaves alone. */
  lemma Untouched(s: Store, o: Owner, t: Store)
    requires o in s.chains && HeldBy(s, o) && o in t.chains && t.chains[o] == s.chains[o]
    requires forall q :: q in s.place && s.place[q] == o && q in s.memory ==>
               q in t.memory && t.memory[q] == s.memory[q] && q in t.place && t.place[q] == o
    ensures HeldBy(t, o) && Parts(t.memory, t.chains[o]) == Parts(s.memory, s.chains[o])
  {
    var c := s.chains[o];
    forall i | 0 <= i < |c|
      ensures c[i] in t.memory && t.memory[c[i]] == s.memory[c[i]] && c[i] in t.place && t.place[c[i]] == o
    {
      assert s.place[c[i]] == o;
    }
    ChainSame(s.memory, t.memory, c);
  }

  /** The buffers of a holder's chain are those placed with it. */
  lemma PlacedWith(s: Store, o: Owner)
    requires Held(s) && Owned(s) && o in s.chains
    ensures HeldBy(s, o) && forall q :: q in s.chains[o] <==> q in s.place && s.place[q] == o
  {
  }

  lemma SameMap<K, V>(a: map<K, V>, b: map<K, V>)
    requires a.Keys == b.Keys && forall k :: k in a ==> a[k] == b[k]
    ensures a == b
  {
  }

  lemma PacketsAt(s: Store, o: Owner)
    requires Held(s) && o in s.chains
    ensures HeldBy(s, o) && Packets(s)[o] == Parts(s.memory, s.chains[o])
  {
    assert HeldBy(s, o);
  }

  // ---------------------------------------------------------------------------------------------
  // Release

  /** The chain of `o` is freed. */
  ghost function Dropped(s: Store, o: Owner): Store
    requires o in s.chains
  {
    var c := s.chains[o];
    s.(memory := Without(s.memory, c, |c|), chains := s.chains - {o}, place := s.place - Elements(c))
  }

  lemma DroppedOther(s: Store, o: Owner, u: Owner)
    requires Held(s) && Owned(s) && o in s.chains && u in s.chains && u != o
    ensures HeldBy(Dropped(s, o), u)
    ensures Parts(Dropped(s, o).memory, s.chains[u]) == Parts(s.memory, s.chains[u])
  {
    PlacedWith(s, o);
    PlacedWith(s, u);
    hide Chain, Parts, HeldBy;
    assert s.chains[o][..|s.chains[o]|] == s.chains[o];
    Untouched(s, u, Dropped(s, o));
  }

  lemma DroppedOwned(s: Store, o: Owner)
    requires Held(s) && Owned(s) && o in s.chains
    ensures Owned(Dropped(s, o))
  {
    PlacedWith(s, o);
    assert s.chains[o][..|s.chains[o]|] == s.chains[o];
    hide HeldBy, Held;
  }

  lemma DroppedHeld(s: Store, o: Owner)
    requires Held(s) && Owned(s) && o in s.chains
    ensures Held(Dropped(s, o)) && Owned(Dropped(s, o)) && Packets(Dropped(s, o)) == Packets(s) - {o}
  {
    var d := Dropped(s, o);
    DroppedOwned(s, o);
    hide Parts, HeldBy, Without, Owned;
    forall u | u in d.chains
      ensures HeldBy(d, u)
    {
      DroppedOther(s, o, u);
    }
    forall u | u in d.chains
      ensures Packets(d)[u] == Packets(s)[u]
    {
      DroppedOther(s, o, u);
      PacketsAt(s, u);
      PacketsAt(d, u);
    }
  }

  /** A netbuf's pointers are as good after a change that leaves it, its chain and the holders of its
      chain's buffers alone. */
  lemma PointingSame(s: Store, t: Store, n: Ptr)
    requires n in s.netbufs && Pointing(s, n) && n in t.netbufs && t.netbufs[n] == s.netbufs[n]
    requires ByNetbuf(n) in s.chains <==> ByNetbuf(n) in t.chains
    requires ByNetbuf(n) in s.chains ==> First(t.chains[ByNetbuf(n)]) == First(s.chains[ByNetbuf(n)])
    requires forall q :: q in s.place && s.place[q] == ByNetbuf(n) ==> q in t.place && t.place[q] == ByNetbuf(n)
    ensures Pointing(t, n)
  {
  }

  lemma DroppedConsistent(s: Store, n: Ptr)
    requires Good(s) && ByNetbuf(n) in s.chains
    ensures Consistent(Dropped(s, ByNetbuf(n)), {n})
    ensures Packets(Dropped(s, ByNetbuf(n))) == Packets(s) - {ByNetbuf(n)}
  {
    hide Without, Held, HeldBy, Pointing, Packets, Owned;
    var o := ByNetbuf(n);
    DroppedHeld(s, o);
    var d := Dropped(s, o);
    PlacedWith(s, o);
    forall m | m in d.netbufs && m != n
      ensures Pointing(d, m)
    {
      PointingSame(s, d, m);
    }
  }

  // ---------------------------------------------------------------------------------------------
  // Allocation

  /** A fresh buffer `q` makes a chain of its own for `o`. */
  ghost function Added(s: Store, o: Owner, q: Ptr, b: Pbuf): Store
    requires o !in s.chains
  {
    s.(memory := s.memory[q := b], chains := s.chains[o := [q]], place := s.place[q := o])
  }

  lemma AddedOther(s: Store, o: Owner, q: Ptr, b: Pbuf, u: Owner)
    requires Held(s) && Owned(s) && o !in s.chains && q !in s.memory && u in s.chains
    ensures HeldBy(Added(s, o, q, b), u)
    ensures Parts(Added(s, o, q, b).memory, s.chains[u]) == Parts(s.memory, s.chains[u])
  {
    hide Chain, Parts, HeldBy;
    Untouched(s, u, Added(s, o, q, b));
  }

  lemma AddedSelf(s: Store, o: Owner, q: Ptr, b: Pbuf)
    requires o !in s.chains && q != NULL
    requires b.next == NULL && b.ref == 1 && b.totLen == b.len <= |b.payload|
    ensures HeldBy(Added(s, o, q, b), o)
    ensures Parts(Added(s, o, q, b).memory, [q]) == [b.payload[..b.len]]
  {
  }

  lemma AddedAll(s: Store, o: Owner, q: Ptr, b: Pbuf)
    requires Held(s) && Owned(s) && o !in s.chains && q !in s.memory && q != NULL
    requires b.next == NULL && b.ref == 1 && b.totLen == b.len <= |b.payload|
    ensures Held(Added(s, o, q, b)) && Owned(Added(s, o, q, b))
  {
    var d := Added(s, o, q, b);
    AddedSelf(s, o, q, b);
    hide Parts, HeldBy;
    forall u | u in s.chains
      ensures HeldBy(d, u)
    {
      AddedOther(s, o, q, b, u);
    }
  }

  lemma AddedPackets(s: Store, o: Owner, q: Ptr, b: Pbuf)
    requires Held(s) && Owned(s) && o !in s.chains && q !in s.memory && q != NULL
    requires b.next == NULL && b.ref == 1 && b.totLen == b.len <= |b.payload|
    requires Held(Added(s, o, q, b))
    ensures Packets(Added(s, o, q, b)) == Packets(s)[o := [b.payload[..b.len]]]
  {
    hide Parts, HeldBy, Owned, Held, Packets;
    AddedSelf(s, o, q, b);
    var d := Added(s, o, q, b);
    PacketsAt(d, o);
    forall u | u in d.chains && u != o
      ensures Packets(d)[u] == Packets(s)[u]
    {
      AddedOther(s, o, q, b, u);
      PacketsAt(s, u);
      PacketsAt(d, u);
    }
    SameMap(Packets(d), Packets(s)[o := [b.payload[..b.len]]]);
  }

  lemma AddedHeld(s: Store, o: Owner, q: Ptr, b: Pbuf)
    requires Held(s) && Owned(s) && o !in s.chains && q !in s.memory && q != NULL
    requires b.next == NULL && b.ref == 1 && b.totLen == b.len <= |b.payload|
    ensures Held(Added(s, o, q, b)) && Owned(Added(s, o, q, b))
    ensures Packets(Added(s, o, q, b)) == Packets(s)[o := [b.payload[..b.len]]]
  {
    hide Held, Owned, Packets, Added;
    AddedAll(s, o, q, b);
    AddedPackets(s, o, q, b);
  }

  // ---------------------------------------------------------------------------------------------
  // Change of hands

  /** The chain of `o` passes to `u`. */
  ghost function Passed(s: Store, o: Owner, u: Owner): Store
    requires o in s.chains
  {
    var c := s.chains[o];
    s.(chains := (s.chains - {o})[u := c], place := map q | q in s.place :: if q in c then u else s.place[q])
  }

  lemma PassedHeldBy(s: Store, o: Owner, u: Owner, v: Owner)
    requires Held(s) && Owned(s) && o in s.chains && u !in s.chains && v in Passed(s, o, u).chains
    ensures HeldBy(Passed(s, o, u), v)
  {
    var w := if v == u then o else v;
    PlacedWith(s, w);
    PlacedWith(s, o);
    hide Chain, Parts, Held, Owned;
    assert Passed(s, o, u).chains[v] == s.chains[w];
  }

  lemma PassedOwned(s: Store, o: Owner, u: Owner)
    requires Held(s) && Owned(s) && o in s.chains && u !in s.chains
    ensures Owned(Passed(s, o, u))
  {
    hide Held, Chain;
    PlacedWith(s, o);
  }

  lemma PassedHeld(s: Store, o: Owner, u: Owner)
    requires Held(s) && Owned(s) && o in s.chains && u !in s.chains
    ensures Held(Passed(s, o, u)) && Owned(Passed(s, o, u))
    ensures Packets(Passed(s, o, u)) == (Packets(s) - {o})[u := Packets(s)[o]]
  {
    hide Chain, Parts, HeldBy, Owned;
    var d := Passed(s, o, u);
    PassedOwned(s, o, u);
    forall v | v in d.chains
      ensures HeldBy(d, v)
    {
      PassedHeldBy(s, o, u, v);
    }
  }

  // ---------------------------------------------------------------------------------------------
  // Concatenation

  /** The chain of `u` goes behind the chain of `o`. */
  ghost function Merged(s: Store, o: Owner, u: Owner): Store
    requires Held(s) && o in s.chains && u in s.chains && o != u
  {
    var a, b := s.chains[o], s.chains[u];
    s.(memory := Catenated(s.memory, a, b), chains := (s.chains - {u})[o := a + b],
       place := map q | q in s.place :: if q in b then o else s.place[q])
  }

  /** Catenation changes the memory of the first chain's buffers only. */
  lemma MergedMemory(s: Store, o: Owner, u: Owner)
    requires Held(s) && o in s.chains && u in s.chains && o != u
    ensures var d, c := Merged(s, o, u), s.chains[o] + s.chains[u];
            && c != [] && Chain(d.memory, c) && Parts(d.memory, c) == Parts(s.memory, s.chains[o]) + Parts(s.memory, s.chains[u])
            && d.memory.Keys == s.memory.Keys
            && forall q :: q in s.memory && q !in s.chains[o] ==> d.memory[q] == s.memory[q]
  {
    assert HeldBy(s, o) && HeldBy(s, u);
    ApartChains(s, o, u);
    hide Chain, Parts, Catenated, Held;
    CatenatedChain(s.memory, s.chains[o], s.chains[u]);
  }

  lemma MergedOther(s: Store, o: Owner, u: Owner, v: Owner)
    requires Held(s) && Owned(s) && o in s.chains && u in s.chains && o != u && v in s.chains && v !in {o, u}
    ensures HeldBy(Merged(s, o, u), v)
    ensures Parts(Merged(s, o, u).memory, s.chains[v]) == Parts(s.memory, s.chains[v])
  {
    hide Chain, Parts, Catenated, HeldBy, Held, Owned;
    MergedMemory(s, o, u);
    PlacedWith(s, o);
    PlacedWith(s, u);
    PlacedWith(s, v);
    Untouched(s, v, Merged(s, o, u));
  }

  lemma MergedSelf(s: Store, o: Owner, u: Owner)
    requires Held(s) && Owned(s) && o in s.chains && u in s.chains && o != u
    ensures HeldBy(Merged(s, o, u), o)
  {
    hide Chain, Parts, Catenated, Held, Owned;
    MergedMemory(s, o, u);
    PlacedWith(s, o);
    PlacedWith(s, u);
  }

  lemma MergedOwned(s: Store, o: Owner, u: Owner)
    requires Held(s) && Owned(s) && o in s.chains && u in s.chains && o != u
    ensures Owned(Merged(s, o, u))
  {
    PlacedWith(s, u);
    hide HeldBy, Held, Catenated;
  }

  lemma MergedAll(s: Store, o: Owner, u: Owner)
    requires Held(s) && Owned(s) && o in s.chains && u in s.chains && o != u
    ensures Held(Merged(s, o, u))
    ensures Merged(s, o, u).chains.Keys == s.chains.Keys - {u}
  {
    var d := Merged(s, o, u);
    MergedSelf(s, o, u);
    assert d.chains == (s.chains - {u})[o := s.chains[o] + s.chains[u]];
    hide HeldBy, Owned, Merged;
    forall v | v in d.chains
      ensures HeldBy(d, v)
    {
      if v != o {
        MergedOther(s, o, u, v);
      }
    }
  }

  lemma MergedPacket(s: Store, o: Owner, u: Owner, v: Owner)
    requires Held(s) && Owned(s) && o in s.chains && u in s.chains && o != u && v in s.chains && v != u
    requires Held(Merged(s, o, u)) && v in Merged(s, o, u).chains
    ensures Packets(Merged(s, o, u))[v] == if v == o then Packets(s)[o] + Packets(s)[u] else Packets(s)[v]
  {
    MergedMemory(s, o, u);
    PacketsAt(s, o);
    PacketsAt(s, u);
    PacketsAt(s, v);
    PacketsAt(Merged(s, o, u), v);
    hide Packets, Parts, HeldBy, Held, Chain, Catenated;
    if v != o {
      MergedOther(s, o, u, v);
    }
  }

  /** The packet of `u` goes behind the one of `o`. */
  function Appended<T>(m: map<Owner, seq<T>>, o: Owner, u: Owner): map<Owner, seq<T>>
    requires o in m && u in m
  {
    (m - {u})[o := m[o] + m[u]]
  }

  lemma IsAppended(m: map<Owner, seq<seq<byte>>>, o: Owner, u: Owner, p: map<Owner, seq<seq<byte>>>)
    requires o in m && u in m && o != u && p.Keys == m.Keys - {u}
    requires forall v :: v in p ==> p[v] == if v == o then m[o] + m[u] else m[v]
    ensures p == Appended(m, o, u)
  {
  }

  lemma MergedPackets(s: Store, o: Owner, u: Owner)
    requires Held(s) && Owned(s) && o in s.chains && u in s.chains && o != u && Held(Merged(s, o, u))
    requires Merged(s, o, u).chains.Keys == s.chains.Keys - {u}
    ensures Packets(Merged(s, o, u)) == Appended(Packets(s), o, u)
  {
    hide Merged, Owned, Held, Packets, Appended;
    forall v | v in Packets(Merged(s, o, u))
      ensures Packets(Merged(s, o, u))[v] == if v == o then Packets(s)[o] + Packets(s)[u] else Packets(s)[v]
    {
      MergedPacket(s, o, u, v);
    }
    IsAppended(Packets(s), o, u, Packets(Merged(s, o, u)));
  }

  lemma MergedHeld(s: Store, o: Owner, u: Owner)
    requires Held(s) && Owned(s) && o in s.chains && u in s.chains && o != u
    ensures Held(Merged(s, o, u)) && Owned(Merged(s, o, u))
    ensures Packets(Merged(s, o, u)) == Appended(Packets(s), o, u)
  {
    hide Held, Owned, Packets, Merged;
    MergedOwned(s, o, u);
    MergedAll(s, o, u);
    MergedPackets(s, o, u);
  }

  /** Both ways of chaining three packets, on the store. */
  lemma MergedTwice(s: Store, a: Owner, b: Owner, c: Owner)
    requires Held(s) && Owned(s) && a in s.chains && b in s.chains && c in s.chains && a != b && b != c && a != c
    ensures Held(Merged(s, a, b)) && Held(Merged(s, b, c))
    ensures a in Merged(s, a, b).chains && c in Merged(s, a, b).chains
    ensures a in Merged(s, b, c).chains && b in Merged(s, b, c).chains
    ensures Merged(s, a, b).chains == (s.chains - {b})[a := s.chains[a] + s.chains[b]]
    ensures Merged(s, b, c).chains == (s.chains - {c})[b := s.chains[b] + s.chains[c]]
  {
    hide Held, Owned, HeldBy, Catenated;
    MergedHeld(s, a, b);
    MergedHeld(s, b, c);
  }

  lemma SamePlaces(p: map<Ptr, Owner>, x: seq<Ptr>, y: seq<Ptr>, a: Owner, b: Owner)
    requires forall q :: q in x && q in p ==> p[q] == b
    ensures (var l := map q | q in p :: if q in x then a else p[q]; map q | q in l :: if q in y then a else l[q])
            == (var r := map q | q in p :: if q in y then b else p[q]; map q | q in r :: if q in x + y then a else r[q])
  {
  }

  /** Chaining three packets gives the same store either way: the same chains and holders, the same links
      and the same total lengths; the contents follow one another. */
  lemma ChainingAssociates(s: Store, a: Owner, b: Owner, c: Owner)
    requires Held(s) && Owned(s) && a in s.chains && b in s.chains && c in s.chains && a != b && b != c && a != c
    ensures Held(Merged(s, a, b)) && a in Merged(s, a, b).chains && c in Merged(s, a, b).chains
    ensures Held(Merged(s, b, c)) && a in Merged(s, b, c).chains && b in Merged(s, b, c).chains
    ensures Merged(Merged(s, a, b), a, c) == Merged(Merged(s, b, c), a, b)
    ensures var t := Merged(Merged(s, a, b), a, c);
            && Held(t) && Owned(t) && a in t.chains
            && Join(Packets(t)[a]) == Join(Packets(s)[a]) + Join(Packets(s)[b]) + Join(Packets(s)[c])
  {
    hide Held, Owned, HeldBy, Catenated, Present, Apart, Packets;
    MergedTwice(s, a, b, c);
    ThreeChains(s, a, b, c);
    var x, y, z := s.chains[a], s.chains[b], s.chains[c];
    CatenatedAssociates(s.memory, x, y, z);
    PlacedWith(s, b);
    SamePlaces(s.place, y, z, a, b);
    assert (x + y) + z == x + (y + z);
    var l, r := Merged(Merged(s, a, b), a, c), Merged(Merged(s, b, c), a, b);
    assert l.chains == r.chains;
    ThreeContents(s, a, b, c);
  }

  lemma ThreeChains(s: Store, a: Owner, b: Owner, c: Owner)
    requires Held(s) && a in s.chains && b in s.chains && c in s.chains && a != b && b != c && a != c
    ensures var x, y, z := s.chains[a], s.chains[b], s.chains[c];
            && Present(s.memory, x) && Present(s.memory, y) && Present(s.memory, z) && x != [] && y != [] && z != []
            && Apart(x, y) && Apart(y, z) && Apart(x, z)
  {
    hide Linked, Measured, Exclusive, Apart, Present;
    assert HeldBy(s, a) && HeldBy(s, b) && HeldBy(s, c);
    ApartChains(s, a, b);
    ApartChains(s, b, c);
    ApartChains(s, a, c);
  }

  lemma ThreeContents(s: Store, a: Owner, b: Owner, c: Owner)
    requires Held(s) && Owned(s) && a in s.chains && b in s.chains && c in s.chains && a != b && b != c && a != c
    requires Held(Merged(s, a, b)) && a in Merged(s, a, b).chains && c in Merged(s, a, b).chains
    ensures var t := Merged(Merged(s, a, b), a, c);
            && Held(t) && Owned(t) && a in t.chains
            && Join(Packets(t)[a]) == Join(Packets(s)[a]) + Join(Packets(s)[b]) + Join(Packets(s)[c])
  {
    hide Held, Owned, Merged, Join;
    MergedHeld(s, a, b);
    MergedHeld(Merged(s, a, b), a, c);
    var m := Packets(s);
    JoinConcat(m[a] + m[b], m[c]);
    JoinConcat(m[a], m[b]);
  }

  // ---------------------------------------------------------------------------------------------
  // Netbufs

  /** The fields of netbuf `n` are assigned. */
  ghost function Assigned(s: Store, n: Ptr, b: Netbuf): Store {
    s.(netbufs := s.netbufs[n := b])
  }

  lemma AssignedGood(s: Store, n: Ptr, b: Netbuf, except: set<Ptr>)
    requires Consistent(s, except + {n}) && n != NULL && Pointing(Assigned(s, n, b), n)
    ensures Consistent(Assigned(s, n, b), except - {n}) && Packets(Assigned(s, n, b)) == Packets(s)
  {
    hide Held, Owned, Pointing, Packets;
    var t := Assigned(s, n, b);
    HeldSame(s, t);
    forall m | m in t.netbufs && m !in except - {n}
      ensures Pointing(t, m)
    {
      if m != n {
        PointingSame(s, t, m);
      }
    }
  }

  lemma HeldSame(s: Store, t: Store)
    requires Held(s) && Owned(s) && t.memory == s.memory && t.chains == s.chains && t.place == s.place
    ensures Held(t) && Owned(t) && Packets(t) == Packets(s)
  {
    hide Chain, Parts;
    assert forall o :: o in s.chains ==> HeldBy(s, o) && HeldBy(t, o);
  }

  /** Netbuf `n`, which holds no chain, is given back. */
  lemma ReturnedGood(s: Store, n: Ptr)
    requires Consistent(s, {n}) && ByNetbuf(n) !in s.chains
    ensures var t := s.(netbufs := s.netbufs - {n}); Good(t) && Packets(t) == Packets(s)
  {
    hide Held, Owned, Pointing, Packets;
    var t := s.(netbufs := s.netbufs - {n});
    HeldSame(s, t);
    forall m | m in t.netbufs
      ensures Pointing(t, m)
    {
      PointingSame(s, t, m);
    }
  }

  /** Among the chains of netbufs and their buffers, at most those of `n` differ. */
  ghost predicate Keeps(s: Store, t: Store, n: Ptr) {
    && t.netbufs == s.netbufs && t.chains.Keys - {ByNetbuf(n)} <= s.chains.Keys
    && (forall o :: o in s.chains && o.ByNetbuf? && o != ByNetbuf(n) ==>
          o in t.chains && First(t.chains[o]) == First(s.chains[o]))
    && (forall q :: q in s.place && s.place[q].ByNetbuf? && s.place[q] != ByNetbuf(n) ==>
          q in t.place && t.place[q] == s.place[q])
  }

  lemma KeepsPointers(s: Store, t: Store, n: Ptr)
    requires Pointers(s, {n}) && Keeps(s, t, n) && n in s.netbufs
    ensures Pointers(t, {n})
  {
    forall m | m in t.netbufs && m != n
      ensures Pointing(t, m)
    {
      PointingSame(s, t, m);
    }
  }

  lemma AddedKeeps(s: Store, n: Ptr, q: Ptr, b: Pbuf)
    requires ByNetbuf(n) !in s.chains && q !in s.place
    ensures Keeps(s, Added(s, ByNetbuf(n), q, b), n)
  {
  }

  lemma AddedConsistent(s: Store, n: Ptr, q: Ptr, b: Pbuf)
    requires Consistent(s, {n}) && n in s.netbufs && ByNetbuf(n) !in s.chains && q !in s.memory && q != NULL
    requires b.next == NULL && b.ref == 1 && b.totLen == b.len <= |b.payload|
    ensures Consistent(Added(s, ByNetbuf(n), q, b), {n})
    ensures Packets(Added(s, ByNetbuf(n), q, b)) == Packets(s)[ByNetbuf(n) := [b.payload[..b.len]]]
  {
    assert q !in s.place;
    hide Held, Pointers, Packets, Owned, Added, Keeps;
    AddedHeld(s, ByNetbuf(n), q, b);
    AddedKeeps(s, n, q, b);
    KeepsPointers(s, Added(s, ByNetbuf(n), q, b), n);
  }

  /** What a change of hands between netbuf `n` and the rest of the stack does to other netbufs. */
  lemma PassedPointing(s: Store, o: Owner, u: Owner, n: Ptr, m: Ptr)
    requires o in s.chains && u !in s.chains && (forall q :: q in s.chains[o] ==> q in s.place && s.place[q] == o)
    requires (o.ByNetbuf? ==> o.n == n) && (u.ByNetbuf? ==> u.n == n)
    requires m in s.netbufs && m != n && Pointing(s, m)
    ensures Passed(s, o, u).netbufs == s.netbufs && Pointing(Passed(s, o, u), m)
  {
    PointingSame(s, Passed(s, o, u), m);
  }

  lemma PassedPointers(s: Store, o: Owner, u: Owner, n: Ptr)
    requires Consistent(s, {n}) && n in s.netbufs && o in s.chains && u !in s.chains && o != u
    requires (o.ByNetbuf? ==> o.n == n) && (u.ByNetbuf? ==> u.n == n)
    ensures Pointers(Passed(s, o, u), {n})
  {
    PlacedWith(s, o);
    hide Held, Owned, Pointing, HeldBy, Passed;
    PassedOwners(s, o, u, n);
    forall m | m in s.netbufs && m != n
      ensures Pointing(Passed(s, o, u), m)
    {
      PassedPointing(s, o, u, n, m);
    }
  }

  /** The chain of `o` passes to `u`, where a netbuf among them is `n`. */
  lemma PassedConsistent(s: Store, o: Owner, u: Owner, n: Ptr)
    requires Consistent(s, {n}) && n in s.netbufs && o in s.chains && u !in s.chains && o != u
    requires (o.ByNetbuf? ==> o.n == n) && (u.ByNetbuf? ==> u.n == n)
    ensures Consistent(Passed(s, o, u), {n})
    ensures Packets(Passed(s, o, u)) == (Packets(s) - {o})[u := Packets(s)[o]]
  {
    hide Held, Owned, Packets, Pointers, Passed;
    PassedPointers(s, o, u, n);
    PassedHeld(s, o, u);
  }

  lemma PassedOwners(s: Store, o: Owner, u: Owner, n: Ptr)
    requires o in s.chains && n in s.netbufs && (u.ByNetbuf? ==> u.n == n)
    requires forall v :: v in s.chains && v.ByNetbuf? ==> v.n in s.netbufs
    ensures Passed(s, o, u).netbufs == s.netbufs
    ensures forall v :: v in Passed(s, o, u).chains && v.ByNetbuf? ==> v.n in s.netbufs
  {
  }

  lemma MergedKeeps(s: Store, h: Ptr, t: Ptr)
    requires Held(s) && h != t && ByNetbuf(h) in s.chains && ByNetbuf(t) in s.chains
    requires s.chains[ByNetbuf(h)] != []
    requires forall q :: q in s.chains[ByNetbuf(t)] ==> q in s.place && s.place[q] == ByNetbuf(t)
    ensures Keeps(s, Merged(s, ByNetbuf(h), ByNetbuf(t)), t)
    ensures ByNetbuf(t) !in Merged(s, ByNetbuf(h), ByNetbuf(t)).chains
  {
    hide Held, Catenated, Present;
  }

  lemma MergedConsistent(s: Store, h: Ptr, t: Ptr)
    requires Good(s) && h != t && ByNetbuf(h) in s.chains && ByNetbuf(t) in s.chains
    ensures Consistent(Merged(s, ByNetbuf(h), ByNetbuf(t)), {t})
    ensures ByNetbuf(t) !in Merged(s, ByNetbuf(h), ByNetbuf(t)).chains
    ensures Packets(Merged(s, ByNetbuf(h), ByNetbuf(t))) == Appended(Packets(s), ByNetbuf(h), ByNetbuf(t))
  {
    var d := Merged(s, ByNetbuf(h), ByNetbuf(t));
    assert t in s.netbufs && Pointers(s, {t}) by { hide Held, Owned, Pointing; }
    PlacedWith(s, ByNetbuf(t));
    PlacedWith(s, ByNetbuf(h));
    assert s.chains[ByNetbuf(h)] != [];
    hide Held, HeldBy, Owned, Pointers, Packets, Merged, Appended, Keeps;
    MergedHeld(s, ByNetbuf(h), ByNetbuf(t));
    MergedKeeps(s, h, t);
    KeepsPointers(s, d, t);
  }

  // ---------------------------------------------------------------------------------------------
  // Chains that no netbuf holds

  /** No netbuf notices a change among the chains of others. */
  lemma OthersGood(s: Store, t: Store)
    requires Good(s) && Held(t) && Owned(t) && t.netbufs == s.netbufs
    requires forall o: Owner :: o.ByNetbuf? ==> (o in s.chains <==> o in t.chains)
    requires forall o: Owner :: o.ByNetbuf? && o in s.chains ==> First(t.chains[o]) == First(s.chains[o])
    requires forall q :: q in s.place && s.place[q].ByNetbuf? ==> q in t.place && t.place[q] == s.place[q]
    ensures Good(t)
  {
    hide Held, Owned, Pointing;
    forall n | n in t.netbufs
      ensures Pointing(t, n)
    {
      PointingSame(s, t, n);
    }
  }

  lemma AddedGood(s: Store, o: Owner, q: Ptr, b: Pbuf)
    requires Good(s) && o.Loose? && o !in s.chains && q !in s.memory && q != NULL
    requires b.next == NULL && b.ref == 1 && b.totLen == b.len <= |b.payload|
    ensures Good(Added(s, o, q, b)) && Packets(Added(s, o, q, b)) == Packets(s)[o := [b.payload[..b.len]]]
  {
    hide Held, Packets, Pointing;
    AddedHeld(s, o, q, b);
    assert q !in s.place;
    OthersGood(s, Added(s, o, q, b));
  }

  lemma MergedGood(s: Store, o: Owner, u: Owner)
    requires Good(s) && o.Loose? && u.Loose? && o != u && o in s.chains && u in s.chains
    ensures Good(Merged(s, o, u)) && Packets(Merged(s, o, u)) == Appended(Packets(s), o, u)
    ensures Merged(s, o, u).chains == Appended(s.chains, o, u) && Merged(s, o, u).netbufs == s.netbufs
  {
    hide Held, Owned, Packets, Pointing, Catenated, HeldBy;
    MergedHeld(s, o, u);
    PlacedWith(s, u);
    OthersGood(s, Merged(s, o, u));
  }

  lemma DroppedGood(s: Store, o: Owner)
    requires Good(s) && o.Loose? && o in s.chains
    ensures Good(Dropped(s, o)) && Packets(Dropped(s, o)) == Packets(s) - {o}
  {
    hide Held, Owned, Packets, Pointing, HeldBy, Without;
    DroppedHeld(s, o);
    PlacedWith(s, o);
    OthersGood(s, Dropped(s, o));
  }
}
