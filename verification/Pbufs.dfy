/** Packet buffers as `pbuf.c` links them, in a memory of records by address: chains, their release
    and their concatenation. */
module Pbufs {
  import opened Machine

  type u16 = x: int | 0 <= x < 0x1_0000

  /** Addition in `u16_t`. */
  function Plus(x: u16, y: u16): u16 { (x + y) % 0x1_0000 }

  /** Conversion to `u8_t`. */
  function ToU8(x: nat): nat { x % 0x100 }

  /** An address; 0 is NULL. */
  type Ptr = nat
  const NULL: Ptr := 0

  /** `struct pbuf`; `payload` stands for the bytes that the pointer designates. */
  datatype Pbuf = Pbuf(next: Ptr, payload: seq<byte>, totLen: u16, len: u16, ref: nat)

  /** The packet buffers in use, by address. */
  type Memory = map<Ptr, Pbuf>

  /** The address behind position `i` of a chain. */
  function After(c: seq<Ptr>, i: nat): Ptr
    requires i < |c|
  {
    if i + 1 < |c| then c[i + 1] else NULL
  }

  function First(c: seq<Ptr>): Ptr {
    if c == [] then NULL else c[0]
  }

  /** All addresses of `c` are in use, and none is there twice. */
  predicate Present(m: Memory, c: seq<Ptr>) {
    && (forall i :: 0 <= i < |c| ==> c[i] in m && c[i] != NULL)
    && (forall i, j :: 0 <= i < j < |c| ==> c[i] != c[j])
  }

  /** Following `next` from the first buffer visits exactly `c`. */
  predicate Linked(m: Memory, c: seq<Ptr>)
    requires Present(m, c)
  {
    forall i {:trigger m[c[i]].next} :: 0 <= i < |c| ==> m[c[i]].next == After(c, i)
  }

  /** The total length recorded behind position `i`. */
  function Behind(m: Memory, c: seq<Ptr>, i: nat): u16
    requires Present(m, c) && i < |c|
  {
    if i + 1 < |c| then m[c[i + 1]].totLen else 0
  }

  /** The length fields of `pbuf.h`: `tot_len` counts this buffer and all behind it, in 16 bits. */
  predicate Measured(m: Memory, c: seq<Ptr>)
    requires Present(m, c)
  {
    forall i {:trigger m[c[i]].len} :: 0 <= i < |c| ==>
      m[c[i]].len <= |m[c[i]].payload| && m[c[i]].totLen == Plus(m[c[i]].len, Behind(m, c, i))
  }

  /** Nothing but the chain refers to its buffers. */
  predicate Exclusive(m: Memory, c: seq<Ptr>)
    requires Present(m, c)
  {
    forall i {:trigger m[c[i]].ref} :: 0 <= i < |c| ==> m[c[i]].ref == 1
  }

  /** A well-formed chain of buffers that nothing else refers to. */
  predicate Chain(m: Memory, c: seq<Ptr>) {
    Present(m, c) && Linked(m, c) && Measured(m, c) && Exclusive(m, c)
  }

  /** What each buffer of a chain holds. */
  function Parts(m: Memory, c: seq<Ptr>): (ps: seq<seq<byte>>)
    requires Present(m, c) && Measured(m, c)
    ensures |ps| == |c| && forall i :: 0 <= i < |c| ==> ps[i] == m[c[i]].payload[..m[c[i]].len]
  {
    seq(|c|, i requires 0 <= i < |c| && m[c[i]].len <= |m[c[i]].payload| => m[c[i]].payload[..m[c[i]].len])
  }

  function Join(ps: seq<seq<byte>>): seq<byte> {
    if ps == [] then [] else ps[0] + Join(ps[1..])
  }

  lemma {:induction false} JoinConcat(a: seq<seq<byte>>, b: seq<seq<byte>>)
    ensures Join(a + b) == Join(a) + Join(b)
    decreases |a|
  {
    if a == [] {
      assert a + b == b;
    } else {
      assert (a + b)[1..] == a[1..] + b;
      JoinConcat(a[1..], b);
    }
  }

  lemma JoinOne(ps: seq<seq<byte>>, p: seq<byte>)
    ensures Join(ps + [p]) == Join(ps) + p
  {
    JoinConcat(ps, [p]);
    assert Join([p]) == p;
  }

  /** A packet's content. */
  function PacketBytes(m: Memory, c: seq<Ptr>): seq<byte>
    requires Present(m, c) && Measured(m, c)
  {
    Join(Parts(m, c))
  }

  lemma PlusMod(len: u16, x: nat)
    ensures Plus(len, x % 0x1_0000) == (len + x) % 0x1_0000
  {
  }

  lemma {:induction false} TotLenFrom(m: Memory, c: seq<Ptr>, i: nat)
    requires Present(m, c) && Measured(m, c) && i < |c|
    ensures m[c[i]].totLen == |Join(Parts(m, c)[i..])| % 0x1_0000
    decreases |c| - i
  {
    assert m[c[i]].totLen == Plus(m[c[i]].len, Behind(m, c, i));
    var ps := Parts(m, c)[i..];
    assert ps[1..] == Parts(m, c)[i + 1..] && |ps[0]| == m[c[i]].len;
    if i + 1 < |c| {
      TotLenFrom(m, c, i + 1);
    }
    hide Parts, Measured, Plus;
    PlusMod(m[c[i]].len, |Join(ps[1..])|);
  }

  /** `tot_len` of the first buffer is the packet's length in 16 bits; it is the length itself exactly
      when that fits. */
  lemma TotLenIsLength(m: Memory, c: seq<Ptr>)
    requires Present(m, c) && Measured(m, c) && c != []
    ensures m[c[0]].totLen == |PacketBytes(m, c)| % 0x1_0000
    ensures m[c[0]].totLen == |PacketBytes(m, c)| <==> |PacketBytes(m, c)| < 0x1_0000
  {
    TotLenFrom(m, c, 0);
    assert Parts(m, c)[0..] == Parts(m, c);
  }

  /** A chain and its content depend on its own buffers only. */
  lemma ChainSame(m: Memory, n: Memory, c: seq<Ptr>)
    requires Chain(m, c) && forall i :: 0 <= i < |c| ==> c[i] in n && n[c[i]] == m[c[i]]
    ensures Chain(n, c) && Parts(n, c) == Parts(m, c)
  {
    assert Present(n, c);
    assert forall i :: 0 <= i < |c| ==> n[c[i]].totLen == m[c[i]].totLen;
    assert forall i :: 0 <= i < |c| ==> Behind(n, c, i) == Behind(m, c, i);
  }

  // ---------------------------------------------------------------------------------------------
  // Release

  /** A release of `c` frees its first `k` buffers: the leading ones that nothing else refers to. */
  predicate Doomed(m: Memory, c: seq<Ptr>, k: nat)
    requires Present(m, c)
  {
    && k <= |c| && (forall i {:trigger m[c[i]].ref} :: 0 <= i < k ==> m[c[i]].ref == 1)
    && (k < |c| ==> m[c[k]].ref > 1)
  }

  /** There is always exactly one such number when every buffer of the chain is referred to. */
  lemma {:induction false} DoomedCount(m: Memory, c: seq<Ptr>) returns (k: nat)
    requires Present(m, c) && forall i :: 0 <= i < |c| ==> m[c[i]].ref >= 1
    ensures Doomed(m, c, k) && forall j: nat :: Doomed(m, c, j) ==> j == k
    decreases |c|
  {
    if c == [] || m[c[0]].ref > 1 {
      k := 0;
    } else {
      var rest := c[1..];
      var n := DoomedCount(m, rest);
      k := n + 1;
      assert forall i :: 0 < i < |c| ==> c[i] == rest[i - 1];
      forall j: nat | Doomed(m, c, j)
        ensures j == k
      {
        if j > 0 {
          assert Doomed(m, rest, j - 1);
        }
      }
    }
  }

  function Elements(c: seq<Ptr>): set<Ptr> { set p | p in c }

  /** Memory after the first `i` buffers of `c` were freed. */
  function Without(m: Memory, c: seq<Ptr>, i: nat): (r: Memory)
    requires i <= |c|
    ensures r.Keys == m.Keys - Elements(c[..i])
  {
    m - Elements(c[..i])
  }

  lemma WithoutMore(m: Memory, c: seq<Ptr>, i: nat)
    requires i < |c| && Present(m, c)
    ensures Without(m, c, i) - {c[i]} == Without(m, c, i + 1)
    ensures c[i] in Without(m, c, i) && Without(m, c, i)[c[i]] == m[c[i]]
  {
    assert c[..i + 1] == c[..i] + [c[i]];
  }

  lemma NextCount(i: nat)
    ensures ToU8(ToU8(i) + 1) == ToU8(i + 1)
  {
  }

  // ---------------------------------------------------------------------------------------------
  // Concatenation

  /** Memory after `more` was added to the total lengths of the first `n` buffers of `c`. */
  function Raised(m: Memory, c: seq<Ptr>, n: nat, more: u16): (r: Memory)
    requires Present(m, c) && n <= |c|
    ensures r.Keys == m.Keys
  {
    map q | q in m :: if q in c[..n] then m[q].(totLen := Plus(m[q].totLen, more)) else m[q]
  }

  lemma RaisedMore(m: Memory, c: seq<Ptr>, n: nat, more: u16)
    requires Present(m, c) && n < |c|
    ensures var r := Raised(m, c, n, more);
            && r[c[n]] == m[c[n]]
            && Raised(m, c, n + 1, more) == r[c[n] := m[c[n]].(totLen := Plus(m[c[n]].totLen, more))]
  {
    assert c[..n + 1] == c[..n] + [c[n]];
  }

  /** Memory after the chain `b` was put behind the chain `a`. */
  function Catenated(m: Memory, a: seq<Ptr>, b: seq<Ptr>): (r: Memory)
    requires Present(m, a) && Present(m, b) && a != [] && b != []
    ensures r.Keys == m.Keys
  {
    var r := Raised(m, a, |a|, m[b[0]].totLen);
    r[a[|a| - 1] := r[a[|a| - 1]].(next := b[0])]
  }

  predicate Apart(a: seq<Ptr>, b: seq<Ptr>) {
    forall i, j :: 0 <= i < |a| && 0 <= j < |b| ==> a[i] != b[j]
  }

  lemma WrapOnce(x: nat, y: nat)
    ensures (x % 0x1_0000 + y) % 0x1_0000 == (x + y) % 0x1_0000
  {
  }

  lemma PlusRaised(len: u16, behind: u16, more: u16)
    ensures Plus(Plus(len, behind), more) == Plus(len, Plus(behind, more))
    ensures Plus(Plus(len, 0), more) == Plus(len, more)
  {
    WrapOnce(len + behind, more);
    WrapOnce(behind + more, len);
  }

  lemma CatenatedAt(m: Memory, a: seq<Ptr>, b: seq<Ptr>)
    requires Present(m, a) && Present(m, b) && a != [] && b != [] && Apart(a, b)
    ensures var r := Catenated(m, a, b);
            && (forall i :: 0 <= i < |a| ==>
                  r[a[i]] == m[a[i]].(totLen := Plus(m[a[i]].totLen, m[b[0]].totLen),
                                      next := if i == |a| - 1 then b[0] else m[a[i]].next))
            && (forall q :: q in m && q !in a ==> r[q] == m[q])
  {
    hide Plus;
    assert a[..|a|] == a;
  }

  lemma JoinedLinkAt(m: Memory, r: Memory, a: seq<Ptr>, b: seq<Ptr>, i: nat)
    requires a != [] && b != [] && Apart(a, b) && Chain(m, a) && Chain(m, b) && r == Catenated(m, a, b)
    requires i < |a| + |b|
    ensures var q := (a + b)[i]; q in r && q != NULL && r[q].next == After(a + b, i) && r[q].ref == 1
  {
    hide Catenated, Plus, Measured, Linked, Exclusive;
    CatenatedAt(m, a, b);
    if i < |a| {
      LinkAt(m, a, i);
    } else {
      LinkAt(m, b, i - |a|);
    }
  }

  lemma LinkAt(m: Memory, c: seq<Ptr>, i: nat)
    requires Present(m, c) && Linked(m, c) && Exclusive(m, c) && i < |c|
    ensures m[c[i]].next == After(c, i) && m[c[i]].ref == 1
  {
  }

  lemma JoinedPresent(m: Memory, r: Memory, a: seq<Ptr>, b: seq<Ptr>)
    requires a != [] && b != [] && Apart(a, b) && Chain(m, a) && Chain(m, b) && r == Catenated(m, a, b)
    ensures Present(r, a + b)
  {
    hide Catenated, Plus, Measured, Linked, Exclusive;
  }

  lemma JoinedLinks(m: Memory, r: Memory, a: seq<Ptr>, b: seq<Ptr>)
    requires a != [] && b != [] && Apart(a, b) && Chain(m, a) && Chain(m, b) && r == Catenated(m, a, b)
    ensures Present(r, a + b) && Linked(r, a + b) && Exclusive(r, a + b)
  {
    hide Catenated, Plus, Measured, Chain, After, Apart;
    JoinedPresent(m, r, a, b);
    forall i | 0 <= i < |a + b|
      ensures r[(a + b)[i]].next == After(a + b, i) && r[(a + b)[i]].ref == 1
    {
      JoinedLinkAt(m, r, a, b, i);
    }
  }

  lemma BehindJoined(m: Memory, r: Memory, a: seq<Ptr>, b: seq<Ptr>, i: nat)
    requires a != [] && b != [] && Apart(a, b) && Present(m, a) && Present(m, b) && r == Catenated(m, a, b)
    requires Present(r, a + b) && i < |a| + |b|
    ensures i < |a| - 1 ==> Behind(r, a + b, i) == Plus(Behind(m, a, i), m[b[0]].totLen)
    ensures i == |a| - 1 ==> Behind(r, a + b, i) == m[b[0]].totLen && Behind(m, a, i) == 0
    ensures i >= |a| ==> Behind(r, a + b, i) == Behind(m, b, i - |a|)
  {
    CatenatedAt(m, a, b);
    hide Catenated, Plus;
    if i + 1 < |a| + |b| {
      assert (a + b)[i + 1] == if i + 1 < |a| then a[i + 1] else b[i + 1 - |a|];
    }
  }

  lemma MeasuredAt(m: Memory, c: seq<Ptr>, i: nat)
    requires Present(m, c) && Measured(m, c) && i < |c|
    ensures m[c[i]].len <= |m[c[i]].payload| && m[c[i]].totLen == Plus(m[c[i]].len, Behind(m, c, i))
  {
  }

  lemma JoinedMeasureAt(m: Memory, r: Memory, a: seq<Ptr>, b: seq<Ptr>, i: nat)
    requires a != [] && b != [] && Apart(a, b) && Chain(m, a) && Chain(m, b) && r == Catenated(m, a, b)
    requires Present(r, a + b) && i < |a| + |b|
    ensures var q := (a + b)[i];
            r[q].len <= |r[q].payload| && r[q].totLen == Plus(r[q].len, Behind(r, a + b, i))
  {
    CatenatedAt(m, a, b);
    BehindJoined(m, r, a, b, i);
    hide Measured, Behind, Catenated, Plus, Linked, Exclusive;
    if i < |a| {
      MeasuredAt(m, a, i);
      PlusRaised(m[a[i]].len, Behind(m, a, i), m[b[0]].totLen);
    } else {
      MeasuredAt(m, b, i - |a|);
      assert (a + b)[i] == b[i - |a|];
    }
  }

  lemma JoinedMeasures(m: Memory, r: Memory, a: seq<Ptr>, b: seq<Ptr>)
    requires a != [] && b != [] && Apart(a, b) && Chain(m, a) && Chain(m, b) && r == Catenated(m, a, b)
    requires Present(r, a + b)
    ensures Measured(r, a + b)
  {
    forall i | 0 <= i < |a + b|
      ensures var q := (a + b)[i];
              r[q].len <= |r[q].payload| && r[q].totLen == Plus(r[q].len, Behind(r, a + b, i))
    {
      JoinedMeasureAt(m, r, a, b, i);
    }
    hide Behind, Catenated, Plus, Chain;
  }

  lemma JoinedParts(m: Memory, r: Memory, a: seq<Ptr>, b: seq<Ptr>)
    requires a != [] && b != [] && Apart(a, b) && Chain(m, a) && Chain(m, b) && r == Catenated(m, a, b)
    requires Present(r, a + b) && Measured(r, a + b)
    ensures Parts(r, a + b) == Parts(m, a) + Parts(m, b)
  {
    hide Behind, Catenated, Plus, Linked, Exclusive;
    CatenatedAt(m, a, b);
    var ps := Parts(m, a) + Parts(m, b);
    forall i | 0 <= i < |a + b|
      ensures Parts(r, a + b)[i] == ps[i]
    {
      if i >= |a| {
        assert (a + b)[i] == b[i - |a|] && r[b[i - |a|]] == m[b[i - |a|]];
      }
    }
  }

  /** Concatenation joins two chains into one chain, whose buffers hold what they held, in order, and
      leaves every other buffer alone. */
  lemma CatenatedChain(m: Memory, a: seq<Ptr>, b: seq<Ptr>)
    requires a != [] && b != [] && Apart(a, b) && Chain(m, a) && Chain(m, b)
    ensures var r := Catenated(m, a, b);
            Chain(r, a + b) && Parts(r, a + b) == Parts(m, a) + Parts(m, b)
            && forall q :: q in m && q !in a ==> r[q] == m[q]
  {
    CatenatedAt(m, a, b);
    JoinedLinks(m, Catenated(m, a, b), a, b);
    JoinedMeasures(m, Catenated(m, a, b), a, b);
    JoinedParts(m, Catenated(m, a, b), a, b);
  }

  /** Three chains put behind each other: the memory in between and the memory at the end. */
  lemma CatenatedTwice(m: Memory, a: seq<Ptr>, b: seq<Ptr>, c: seq<Ptr>)
    requires Present(m, a) && Present(m, b) && Present(m, c) && a != [] && b != [] && c != []
    requires Apart(a, b) && Apart(b, c) && Apart(a, c)
    ensures Present(Catenated(m, a, b), a + b) && Present(Catenated(m, a, b), c)
    ensures Present(Catenated(m, b, c), a) && Present(Catenated(m, b, c), b + c)
    ensures Apart(a + b, c) && Apart(a, b + c)
  {
    hide Catenated;
  }

  lemma LeftTwice(m: Memory, a: seq<Ptr>, b: seq<Ptr>, c: seq<Ptr>)
    requires Present(m, a) && Present(m, b) && Present(m, c) && a != [] && b != [] && c != []
    requires Apart(a, b) && Apart(b, c) && Apart(a, c)
    requires Present(Catenated(m, a, b), a + b) && Present(Catenated(m, a, b), c) && Apart(a + b, c)
    ensures var r, x, y := Catenated(Catenated(m, a, b), a + b, c), m[b[0]].totLen, m[c[0]].totLen;
            && (forall i :: 0 <= i < |a| ==>
                  r[a[i]] == m[a[i]].(totLen := Plus(Plus(m[a[i]].totLen, x), y),
                                      next := if i == |a| - 1 then b[0] else m[a[i]].next))
            && (forall j :: 0 <= j < |b| ==>
                  r[b[j]] == m[b[j]].(totLen := Plus(m[b[j]].totLen, y), next := if j == |b| - 1 then c[0] else m[b[j]].next))
            && (forall q :: q in m && q !in a && q !in b ==> r[q] == m[q])
  {
    hide Catenated, Plus;
    CatenatedAt(m, a, b);
    CatenatedAt(Catenated(m, a, b), a + b, c);
    var r, l := Catenated(Catenated(m, a, b), a + b, c), a + b;
    assert c[0] !in a;
    assert forall i :: 0 <= i < |a| ==> l[i] == a[i];
    assert forall j :: 0 <= j < |b| ==> l[|a| + j] == b[j] && b[j] !in a;
  }

  lemma RightTwice(m: Memory, a: seq<Ptr>, b: seq<Ptr>, c: seq<Ptr>)
    requires Present(m, a) && Present(m, b) && Present(m, c) && a != [] && b != [] && c != []
    requires Apart(a, b) && Apart(b, c) && Apart(a, c)
    requires Present(Catenated(m, b, c), a) && Present(Catenated(m, b, c), b + c) && Apart(a, b + c)
    ensures var r, x, y := Catenated(Catenated(m, b, c), a, b + c), m[b[0]].totLen, m[c[0]].totLen;
            && (forall i :: 0 <= i < |a| ==>
                  r[a[i]] == m[a[i]].(totLen := Plus(m[a[i]].totLen, Plus(x, y)),
                                      next := if i == |a| - 1 then b[0] else m[a[i]].next))
            && (forall j :: 0 <= j < |b| ==>
                  r[b[j]] == m[b[j]].(totLen := Plus(m[b[j]].totLen, y), next := if j == |b| - 1 then c[0] else m[b[j]].next))
            && (forall q :: q in m && q !in a && q !in b ==> r[q] == m[q])
  {
    hide Catenated, Plus;
    CatenatedAt(m, b, c);
    CatenatedAt(Catenated(m, b, c), a, b + c);
    assert forall i :: 0 <= i < |a| ==> a[i] !in b;
    assert forall j :: 0 <= j < |b| ==> b[j] !in a;
  }

  /** Putting chains behind each other associates: every link and every total length is the same. */
  lemma CatenatedAssociates(m: Memory, a: seq<Ptr>, b: seq<Ptr>, c: seq<Ptr>)
    requires Present(m, a) && Present(m, b) && Present(m, c) && a != [] && b != [] && c != []
    requires Apart(a, b) && Apart(b, c) && Apart(a, c)
    ensures Present(Catenated(m, a, b), a + b) && Present(Catenated(m, a, b), c)
    ensures Present(Catenated(m, b, c), a) && Present(Catenated(m, b, c), b + c)
    ensures Catenated(Catenated(m, a, b), a + b, c) == Catenated(Catenated(m, b, c), a, b + c)
  {
    hide Catenated, Plus, Apart;
    CatenatedTwice(m, a, b, c);
    LeftTwice(m, a, b, c);
    RightTwice(m, a, b, c);
    var l, r := Catenated(Catenated(m, a, b), a + b, c), Catenated(Catenated(m, b, c), a, b + c);
    forall q | q in m
      ensures l[q] == r[q]
    {
      if q in a {
        PlusRaised(m[q].totLen, m[b[0]].totLen, m[c[0]].totLen);
      }
    }
  }

  // ---------------------------------------------------------------------------------------------
  // The code

  /** The buffers in use, and the functions of `pbuf.c` that change them. */
  class Buffers {
    var memory: Memory

    constructor ()
      ensures memory == map[]
    {
      memory := map[];
    }

    /** `pbuf_free` on the chain `c` that starts at `p`: the leading buffers with a single reference are
        freed, each once while in use; the next one loses a reference; nothing else changes. The count
        is an 8-bit number. */
    method PbufFree(p: Ptr, ghost c: seq<Ptr>, ghost k: nat) returns (count: nat)
      requires p == First(c) && Present(memory, c) && Linked(memory, c) && Doomed(memory, c, k)
      modifies this
      ensures var w := Without(old(memory), c, k);
              && count == ToU8(k)
              && memory == if k == |c| then w else w[c[k] := w[c[k]].(ref := w[c[k]].ref - 1)]
    {
      ghost var m := memory;
      var q := p;
      count := 0;
      ghost var i := 0;
      assert c[..0] == [];
      while q != NULL
        invariant i <= k && q == (if i < |c| then c[i] else NULL)
        invariant count == ToU8(i) && memory == Without(m, c, i)
        decreases |c| - i
      {
        WithoutMore(m, c, i);
        NextCount(i);
        hide Without, ToU8;
        assert m[c[i]].next == After(c, i) && (i < k ==> m[c[i]].ref == 1);
        var ref := memory[q].ref - 1;
        if ref == 0 {
          var next := memory[q].next;
          memory := memory - {q};
          count := ToU8(count + 1);
          q := next;
          i := i + 1;
        } else {
          memory := memory[q := memory[q].(ref := ref)];
          return;
        }
      }
    }

    /** `pbuf_cat`: the chain at `t` goes behind the chain at `h`, whose total lengths grow by the one of
        `t`. With no chain on one side nothing happens; a chain put behind itself leads into itself. */
    method PbufCat(h: Ptr, t: Ptr, ghost a: seq<Ptr>, ghost b: seq<Ptr>)
      requires h == First(a) && t == First(b) && Present(memory, a) && Present(memory, b)
      requires Linked(memory, a) && (Apart(a, b) || a == b)
      modifies this
      ensures a == [] || b == [] ==> memory == old(memory)
      ensures a != [] && b != [] && Apart(a, b) ==> memory == Catenated(old(memory), a, b)
      ensures a != [] && a == b ==> Looped(old(memory), memory, a)
    {
      hide Raised, Plus, Apart, Catenated, Looped, SameLinks, Linked;
      if h == NULL || t == NULL {
        return;
      }
      ghost var m := memory;
      var p := h;
      ghost var i := 0;
      RaisedNone(m, a, m[t].totLen);
      LinkOf(m, a, i);
      SameLinksNone(m, a);
      SameLinksAt(m, memory, a, i, m[p].totLen);
      while memory[p].next != NULL
        invariant i < |a| && p == a[i] && SameLinks(m, memory, a)
        invariant memory.Keys == m.Keys && memory[p].next == m[p].next
        invariant m[p].next == After(a, i) && (Apart(a, b) ==> memory == Raised(m, a, i, m[t].totLen))
        decreases |a| - i
      {
        RaisedMore(m, a, i, m[t].totLen);
        if Apart(a, b) {
          RaisedTail(m, a, b, i);
        }
        LinkOf(m, a, i + 1);
        SameLinksAt(m, memory, a, i, Plus(memory[p].totLen, memory[t].totLen));
        memory := memory[p := memory[p].(totLen := Plus(memory[p].totLen, memory[t].totLen))];
        p := memory[p].next;
        i := i + 1;
        SameLinksAt(m, memory, a, i, m[p].totLen);
      }
      RaisedMore(m, a, i, m[t].totLen);
      if Apart(a, b) {
        RaisedTail(m, a, b, i);
      }
      ghost var r := memory;
      memory := memory[p := memory[p].(totLen := Plus(memory[p].totLen, memory[t].totLen))];
      ghost var r' := memory;
      memory := memory[p := memory[p].(next := t)];
      if Apart(a, b) {
        CatenatedLast(m, r', a, b);
      }
      if a == b {
        LoopedLast(m, r, memory, a);
      }
    }
  }

  lemma CatenatedLast(m: Memory, r: Memory, a: seq<Ptr>, b: seq<Ptr>)
    requires Present(m, a) && Present(m, b) && a != [] && b != [] && r == Raised(m, a, |a|, m[b[0]].totLen)
    ensures r[a[|a| - 1] := r[a[|a| - 1]].(next := b[0])] == Catenated(m, a, b)
  {
  }

  lemma SameLinksNone(m: Memory, c: seq<Ptr>)
    ensures SameLinks(m, m, c)
  {
  }

  lemma SameLinksAt(m: Memory, r: Memory, c: seq<Ptr>, i: nat, x: u16)
    requires Present(m, c) && SameLinks(m, r, c) && i < |c|
    ensures r.Keys == m.Keys && c[i] in r && r[c[i]].next == m[c[i]].next
    ensures SameLinks(m, r[c[i] := r[c[i]].(totLen := x)], c)
  {
  }

  lemma LoopedLast(m: Memory, r: Memory, f: Memory, a: seq<Ptr>)
    requires Present(m, a) && Linked(m, a) && a != [] && SameLinks(m, r, a)
    requires var p := a[|a| - 1]; f.Keys == r.Keys && f[p].next == a[0] && forall q :: q in r && q != p ==> f[q] == r[q]
    ensures Looped(m, f, a)
  {
    forall i | 0 <= i < |a|
      ensures f[a[i]].next == if i + 1 < |a| then a[i + 1] else a[0]
    {
      LinkOf(m, a, i);
    }
  }

  lemma RaisedNone(m: Memory, c: seq<Ptr>, more: u16)
    requires Present(m, c)
    ensures Raised(m, c, 0, more) == m
  {
    assert c[..0] == [];
  }

  /** The second chain keeps its total length. */
  lemma RaisedTail(m: Memory, a: seq<Ptr>, b: seq<Ptr>, i: nat)
    requires Present(m, a) && Present(m, b) && b != [] && i <= |a| && Apart(a, b)
    ensures Raised(m, a, i, m[b[0]].totLen)[b[0]] == m[b[0]]
  {
  }

  lemma LinkOf(m: Memory, c: seq<Ptr>, i: nat)
    requires Present(m, c) && Linked(m, c) && i < |c|
    ensures m[c[i]].next == After(c, i)
  {
  }

  /** Only total lengths of buffers of `c` differ. */
  ghost predicate SameLinks(m: Memory, r: Memory, c: seq<Ptr>) {
    && r.Keys == m.Keys && (forall q :: q in m ==> r[q].next == m[q].next)
    && forall q :: q in m && q !in c ==> r[q] == m[q]
  }

  /** The chain `c` leads into itself, and no other buffer has changed. */
  ghost predicate Looped(m: Memory, r: Memory, c: seq<Ptr>)
    requires Present(m, c) && c != []
  {
    && r.Keys == m.Keys && (forall q :: q in m && q !in c ==> r[q] == m[q])
    && forall i {:trigger r[c[i]].next} :: 0 <= i < |c| ==> r[c[i]].next == if i + 1 < |c| then c[i + 1] else c[0]
  }

  /** A chain that leads into itself is no chain any more: nothing well formed starts with its first buffer. */
  lemma LoopedIsNoChain(m: Memory, r: Memory, c: seq<Ptr>, d: seq<Ptr>)
    requires Present(m, c) && c != [] && Looped(m, r, c)
    ensures !(d != [] && d[0] == c[0] && Present(r, d) && Linked(r, d))
  {
    if d != [] && d[0] == c[0] && Present(r, d) && Linked(r, d) {
      LinkOf(r, d, |d| - 1);
      StaysInLoop(m, r, c, d, |d| - 1);
    }
  }

  lemma {:induction false} StaysInLoop(m: Memory, r: Memory, c: seq<Ptr>, d: seq<Ptr>, i: nat)
    requires Present(m, c) && c != [] && Looped(m, r, c)
    requires d != [] && d[0] == c[0] && Present(r, d) && Linked(r, d) && i < |d|
    ensures d[i] in c && r[d[i]].next in c
    decreases i
  {
    if i > 0 {
      StaysInLoop(m, r, c, d, i - 1);
      assert r[d[i - 1]].next == d[i];
    }
    var k :| 0 <= k < |c| && c[k] == d[i];
    assert r[c[k]].next == if k + 1 < |c| then c[k + 1] else c[0];
  }
}
