/** What the two-party system delivers: safety in every world, and the whole image from the EOT on. */
module Delivery {
  import opened Machine
  import opened Framing
  import opened Flash
  import opened Session
  import opened Ledger
  import opened Image
  import opened FileImage
  import opened FirstFile
  import opened Announce
  import opened Texts
  import opened TwoParty

  /** Payloads joined. */
  function Flat(ps: seq<seq<byte>>): seq<byte> {
    if ps == [] then [] else Flat(ps[..|ps| - 1]) + ps[|ps| - 1]
  }

  lemma {:induction false} JoinedIsFlat(ts: seq<Taken>, ps: seq<seq<byte>>)
    requires |ts| == |ps| && forall k :: 0 <= k < |ts| ==> ts[k].payload == ps[k]
    ensures Joined(ts) == Flat(ps)
    decreases |ts|
  {
    if ts != [] {
      JoinedIsFlat(ts[..|ts| - 1], ps[..|ps| - 1]);
    }
  }

  lemma {:induction false} FlatPrefix(ps: seq<seq<byte>>, k: nat)
    requires k <= |ps|
    ensures Flat(ps[..k]) <= Flat(ps)
    decreases |ps|
  {
    if k < |ps| {
      FlatPrefix(ps[..|ps| - 1], k);
      assert ps[..|ps| - 1][..k] == ps[..k];
    } else {
      assert ps[..k] == ps;
    }
  }

  lemma {:induction false} FlatWords(ps: seq<seq<byte>>)
    requires forall i :: 0 <= i < |ps| ==> |ps[i]| % 4 == 0
    ensures |Flat(ps)| % 4 == 0
    decreases |ps|
  {
    if ps != [] {
      FlatWords(ps[..|ps| - 1]);
    }
  }

  /** The bytes that the data packets of the file carry. */
  function Payloads(c: Setting): seq<byte>
    requires Proper(c.file)
  {
    Flat(c.file[1..])
  }

  /** The file is sent under `name` as `n` bytes, and fits. */
  ghost predicate Sends(c: Setting, name: seq<byte>, n: nat) {
    Sane(c) && Announces(c.file[0], name, n) && n < FLASH_SIZE
  }

  lemma ContentIsPrefix(c: Setting, h: History)
    requires Sane(c) && TookPrefix(c, h) && h.taken != []
    ensures h.broken == [] ==> Content(h) == Flat(c.file[1..|h.taken|])
    ensures Content(h) <= Payloads(c)
  {
    hide Sane;
    var r := |h.taken|;
    JoinedIsFlat(h.taken[1..], c.file[1..r]);
    FlatPrefix(c.file[1..], r - 1);
    assert c.file[1..][..r - 1] == c.file[1..r];
    if h.broken != [] {
      assert c.file[1..][..r] == c.file[1..r + 1];
      assert c.file[1..r + 1][..r - 1] == c.file[1..r];
      FlatPrefix(c.file[1..], r);
    }
  }

  // ---------------------------------------------------------------------------------------------
  // Safety

  lemma AlwaysCoupled(c: Setting, ms: seq<Move>, v: World)
    requires Sane(c) && Leads(c, BEGINNING, ms, v)
    ensures Coupled(c, v)
  {
    assert Coupled(c, BEGINNING);
    hide Coupled, Leads;
    CoupledAlways(c, BEGINNING, ms, v);
  }

  /** Up to the EOT the receiver's packet count is the sender's index or one more, however long the
      file is; what it took is the file's first packets; and no frame on the line is mistaken for the
      expected one: a frame whose sequence byte is the expected one is the expected one. */
  lemma InStepAlways(c: Setting, ms: seq<Move>, v: World)
    requires Sane(c) && Leads(c, BEGINNING, ms, v) && AllGenuine(v.seen) && BookOf(c, v.seen).files == 0
    ensures v.at <= StateOf(c, v.seen).packets <= v.at + 1
    ensures TookPrefix(c, BookOf(c, v.seen)) && |BookOf(c, v.seen).taken| == StateOf(c, v.seen).packets
    ensures forall i :: 0 <= i < |v.lane| && v.lane[i] % 0x100 == StateOf(c, v.seen).packets % 0x100 ==>
              v.lane[i] == StateOf(c, v.seen).packets
  {
    hide Exec, Log, Leads, Sane, Over, TookPrefix;
    AlwaysCoupled(c, ms, v);
    assert Fresh(c.start) by { SaneIs(c); }
    Counts(c.hw, c.start, v.seen);
  }

  /** The part of a file that a receiver in state `t` has in flash: exactly up to its destination, and
      nothing off the file's pages has changed. */
  ghost predicate HasPrefix(c: Setting, t: State, n: nat)
    requires Proper(c.file)
  {
    var p := t.dest - APPLICATION_ADDRESS;
    && 0 <= p <= |Payloads(c)| && p % 4 == 0 && p <= Rounded(n)
    && InFlash(t.flash, Payloads(c), p) && ElsewhereSame(c.start.flash, t.flash, n)
  }

  /** The word at the destination is not the one that the file has there. */
  ghost predicate NextWrong(c: Setting, t: State)
    requires Proper(c.file)
  {
    var p := t.dest - APPLICATION_ADDRESS;
    0 <= p && p + 4 <= |Payloads(c)| && WrongAt(t.flash, t.dest, Payloads(c), p)
  }

  lemma PrefixInFlash(flash: Words, a: seq<byte>, b: seq<byte>, p: nat)
    requires p <= |a| && a <= b && InFlash(flash, a, p)
    ensures InFlash(flash, b, p)
  {
  }

  lemma StillWrong(flash: Words, addr: nat, a: seq<byte>, b: seq<byte>, p: nat)
    requires a <= b && p + 4 <= |a| && WrongAt(flash, addr, a, p)
    ensures WrongAt(flash, addr, b, p)
  {
  }

  lemma OneTame(sizes: seq<int>, n: nat)
    requires sizes == [n] && n < FLASH_SIZE
    ensures AllTame(sizes)
  {
  }

  /** A receiver that has taken one filename packet, and the file's first packets, has the file's first bytes in
      flash, up to a word that failed to verify; also after the EOT. */
  lemma TakenIsStored(c: Setting, es: seq<Event>, name: seq<byte>, n: nat)
    requires Sends(c, name, n) && AllGenuine(es)
    requires var h := BookOf(c, es); |h.sizes| == 1 && TookPrefix(c, h)
    ensures HasPrefix(c, StateOf(c, es), n)
    ensures var t, h := StateOf(c, es), BookOf(c, es);
            && h.taken != [] && h.base.size == n && (t.size < FLASH_SIZE ==> Shows(t.name, c.file[0]))
            && (h.open ==> (h.broken != [] <==> t.result == Some(-2))) && (t.size < FLASH_SIZE ==> t.size == n)
            && (h.broken == [] ==> t.dest == APPLICATION_ADDRESS + Min(|Content(h)|, Rounded(n)))
            && (h.broken != [] ==> NextWrong(c, t))
  {
    hide Exec, Log, Content, Names, ElsewhereSame, InFlash, Room, Rounded, Payloads, Balanced, Budgeted, Explained, Kept, Tame, Shows, WrongAt;
    var t, h := StateOf(c, es), BookOf(c, es);
    BooksHold(c.hw, c.start, es);
    ImageHolds(c.hw, c.start, es);
    GovernedHolds(c.hw, c.start, es, name, n);
    TitledHolds(c.hw, c.start, es);
    ContentIsPrefix(c, h);
    assert h.sizes == [n];
    OneTame(h.sizes, n);
    FirstFileImage(c.hw, c.start, es);
    PrefixInFlash(t.flash, Content(h), Payloads(c), Landed(t));
    if h.broken != [] {
      StillWrong(t.flash, t.dest, Content(h), Payloads(c), Landed(t));
    }
  }

  /** Two-party safety: at every point before the EOT, once the filename packet is taken, flash holds a prefix
      of what is sent, exactly up to the destination; only when a word failed to verify does the next word
      differ from what is sent. */
  lemma PrefixAlways(c: Setting, ms: seq<Move>, v: World, name: seq<byte>, n: nat)
    requires Sends(c, name, n) && Leads(c, BEGINNING, ms, v) && AllGenuine(v.seen)
    requires var h := BookOf(c, v.seen); h.files == 0 && h.taken != []
    ensures HasPrefix(c, StateOf(c, v.seen), n)
    ensures StateOf(c, v.seen).result == Some(-2) ==> NextWrong(c, StateOf(c, v.seen))
    ensures StateOf(c, v.seen).size < FLASH_SIZE ==> Shows(StateOf(c, v.seen).name, c.file[0])
  {
    hide Exec, Log, Leads, TookPrefix, HasPrefix, NextWrong, Shows;
    InStepAlways(c, ms, v);
    Counts(c.hw, c.start, v.seen);
    TakenIsStored(c, v.seen, name, n);
  }

  /** The receiver has the file's name and all of the file that fits its announced size; when the packets carry
      at least the `n` bytes announced, that is the whole file. */
  ghost predicate Has(c: Setting, t: State, n: nat)
    requires Proper(c.file)
  {
    && t.dest == APPLICATION_ADDRESS + Min(|Payloads(c)|, Rounded(n)) && t.size == n
    && HasPrefix(c, t, n) && Shows(t.name, c.file[0])
    && (n <= |Payloads(c)| ==>
          Rounded(n) <= |Payloads(c)| && InFlash(t.flash, Payloads(c), Rounded(n)))
  }

  lemma WholeIsHad(c: Setting, t: State, n: nat)
    requires Proper(c.file) && HasPrefix(c, t, n) && t.size == n && Shows(t.name, c.file[0])
    requires t.dest == APPLICATION_ADDRESS + Min(|Payloads(c)|, Rounded(n))
    ensures Has(c, t, n)
  {
    FlatWords(c.file[1..]);
    hide Flat, InFlash, ElsewhereSame, Shows;
  }

  /** A receiver that has taken every packet has the file, before and after the EOT and when the session has
      ended. */
  lemma AllTaken(c: Setting, es: seq<Event>, name: seq<byte>, n: nat)
    requires Sends(c, name, n) && AllGenuine(es) && StateOf(c, es).size < FLASH_SIZE
    requires var h := BookOf(c, es); |h.sizes| == 1 && h.broken == [] && |h.taken| == |c.file| && TookPrefix(c, h)
    ensures Has(c, StateOf(c, es), n)
  {
    hide Exec, Log, Content, HasPrefix, Announces, TookPrefix, Shows;
    var h := BookOf(c, es);
    TakenIsStored(c, es, name, n);
    ContentIsPrefix(c, h);
    assert c.file[1..|c.file|] == c.file[1..];
    WholeIsHad(c, StateOf(c, es), n);
  }

  /** No filename packet is refused as long as the session goes on, or when it ends otherwise. */
  lemma SizeFits(c: Setting, es: seq<Event>)
    requires Sane(c) && AllGenuine(es) && StateOf(c, es).result != Some(-1)
    ensures StateOf(c, es).size < FLASH_SIZE
  {
    hide Exec, Log, Kept, Content, Tame;
    ImageHolds(c.hw, c.start, es);
  }

  /** Delivery: from the first EOT on, whatever is lost or repeated, every packet was taken before it; flash holds
      the file as far as it fits the announced size; and a session that has returned gave that size, or 0
      after six failed receptions. */
  lemma DeliveredFromEotOn(c: Setting, ms: seq<Move>, v: World, name: seq<byte>, n: nat)
    requires Sends(c, name, n) && Leads(c, BEGINNING, ms, v) && AllGenuine(v.seen)
    requires BookOf(c, v.seen).files != 0
    ensures Finished(c, BookOf(c, v.seen)) && Has(c, StateOf(c, v.seen), n)
    ensures StateOf(c, v.seen).result in {None, Some(n), Some(0)}
  {
    hide Exec, Log, Leads, Has, TookPrefix, HasPrefix;
    AlwaysCoupled(c, ms, v);
    TakenIsStored(c, v.seen, name, n);
    if StateOf(c, v.seen).result != Some(-1) {
      SizeFits(c, v.seen);
    }
    AllTaken(c, v.seen, name, n);
  }

  /** What the sender may conclude: once its EOT is acknowledged, the file is in flash. */
  lemma AcknowledgedIsDelivered(c: Setting, ms: seq<Move>, v: World, name: seq<byte>, n: nat)
    requires Sends(c, name, n) && Leads(c, BEGINNING, ms, v) && |c.file| < v.at
    ensures AllGenuine(v.seen) && BookOf(c, v.seen).files != 0 && Has(c, StateOf(c, v.seen), n)
  {
    hide Exec, Log, Leads, Has, TookPrefix, Over;
    AlwaysCoupled(c, ms, v);
    DeliveredFromEotOn(c, ms, v, name, n);
  }
}
