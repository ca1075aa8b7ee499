/** What a whole call of `Ymodem_Receive` leaves as it was. */
module Calls {
  import opened Machine
  import opened Framing
  import opened Flash
  import opened Session
  import opened Ledger
  import opened Image
  import opened FileImage
  import opened FirstFile
  import opened Journal
  import opened Texts

  /** Without a filename packet nothing changes but counters and replies; without a data packet the RAM buffer
      does not; words that no operation touches do not; and with one filename packet, words off its pages. */
  lemma CallEffect(hw: Hardware, s: State, es: seq<Event>)
    requires Fresh(s) && AllGenuine(es)
    ensures var t, h := Exec(hw, s, es), Log(hw, s, es);
            && t.flash.Keys == s.flash.Keys
            && (h.sizes == [] ==> t.flash == s.flash && t.complete == s.complete && t.ops == [])
            && (h.sizes == [] && t.result != Some(-1) ==> t.name == s.name && t.field == s.field && t.size == 0)
            && (h.sizes == [] ==> t.ram == s.ram && t.dest == APPLICATION_ADDRESS)
            && (|h.sizes| == 1 && 0 <= h.sizes[0] ==> ElsewhereSame(s.flash, t.flash, h.sizes[0]))
    ensures forall a :: a in s.flash && Spared(Exec(hw, s, es).ops, 0, a) ==> Exec(hw, s, es).flash[a] == s.flash[a]
  {
    hide Exec, Log, Spared, ElsewhereSame, Kept, Content, Follows, ErasesStop, ReadsBack, Shows, Balanced, Budgeted, Numbered, Opening,
      Tame, InPlace;
    var t, h := Exec(hw, s, es), Log(hw, s, es);
    BooksHold(hw, s, es);
    ImageHolds(hw, s, es);
    JournalHolds(hw, s, es);
    FollowsKeys(hw, s, t);
    PlacedHolds(hw, s, es);
    TitledHolds(hw, s, es);
    forall a | a in s.flash && Spared(t.ops, 0, a)
      ensures t.flash[a] == s.flash[a]
    {
      UntouchedWords(hw, s, es, a);
    }
    if |h.sizes| == 1 && 0 <= h.sizes[0] {
      OpeningFits(hw, s, h.base);
      OneIsTame(h.sizes);
      FirstFileImage(hw, s, es);
    }
  }

  lemma OpeningFits(hw: Hardware, s: State, b: State)
    requires Opening(hw, s, b)
    ensures b.size < FLASH_SIZE
  {
  }

  lemma OneIsTame(sizes: seq<int>)
    requires |sizes| == 1 && 0 <= sizes[0] < FLASH_SIZE
    ensures AllTame(sizes)
  {
  }
}
