/** From the text of a filename packet to the size that governs its file. */
module Announce {
  import opened Machine
  import opened Framing
  import opened Header
  import opened Flash
  import opened Session
  import opened Ledger

  /** The payload of a filename packet with the name `name` and the size text `text`. */
  predicate Spells(payload: seq<byte>, name: seq<byte>, text: seq<byte>) {
    && name != [] && |name| < FILE_NAME_LENGTH && 0 !in name && |text| < FILE_SIZE_LENGTH && SPACE !in text
    && name + [0] + text + [SPACE] <= payload
  }

  /** The payload of a filename packet with the name `name` and the decimal size text of `n`. */
  predicate Names(payload: seq<byte>, name: seq<byte>, n: nat) {
    && name != [] && |name| < FILE_NAME_LENGTH && 0 !in name
    && name + [0] + Digits(n) + [SPACE] <= payload
  }

  /** The payload of a filename packet for a file called `name` of `n` bytes. */
  predicate Announces(payload: seq<byte>, name: seq<byte>, n: nat) {
    Names(payload, name, n) && n < 0x8000_0000
  }

  lemma SpelledName(payload: seq<byte>, name: seq<byte>, text: seq<byte>)
    requires Spells(payload, name, text)
    ensures payload != [] && payload[0] == name[0] != 0
  {
    assert payload[0] == (name + [0] + text + [SPACE])[0];
    assert name[0] in name;
  }

  lemma HeadedText(s: State, buf: seq<byte>, len: nat, name: seq<byte>, text: seq<byte>)
    requires Shaped(s) && |buf| == PACKET_BUFFER && PACKET_HEADER + len <= PACKET_BUFFER
    requires Spells(buf[PACKET_HEADER..PACKET_HEADER + len], name, text)
    ensures buf[PACKET_HEADER] != 0 && NameText(buf) == name && FieldText(buf) == text
    ensures var h := Headed(s, buf);
            && h.name[..|name| + 1] == name + [0] && h.field[..|text| + 1] == text + [0]
            && h.size == Converted(Stored(s.field, text), s.size)
  {
    hide Converted, NameText, FieldText;
    var payload := buf[PACKET_HEADER..PACKET_HEADER + len];
    SpelledName(payload, name, text);
    assert buf[PACKET_HEADER..][..len] == payload;
    HeaderRoundTrip(buf, name, text);
    assert Stored(s.name, name)[|name|] == 0 && Stored(s.field, text)[|text|] == 0;
  }

  /** A filename packet with any name and size text: both are stored, the text is converted, and the packet is
      refused with -1 exactly when the size is not below the region's. */
  lemma HeaderText(hw: Hardware, s: State, e: Event, name: seq<byte>, text: seq<byte>)
    requires Shaped(s) && s.result.None? && Genuine(e) && e.packet.Data? && InSequence(s, e) && s.packets == 0
    requires Spells(Payload(e), name, text)
    ensures var t := Step(hw, s, e);
            && t.size == Converted(Stored(s.field, text), s.size) && t.dest == s.dest && !IsClosing(s, e)
            && t.name[..|name| + 1] == name + [0] && t.field[..|text| + 1] == text + [0]
            && (t.size >= FLASH_SIZE <==> t.result.Some?) && (t.result.Some? ==> t.result == Some(-1))
            && (t.result.None? ==> t.packets == 1)
  {
    hide Converted, NameText, FieldText, Erased, Pages, Spells;
    HeadedText(s.(errors := 0), e.buf, e.packet.length, name, text);
  }

  /** A filename packet with a decimal size: the size is the text's value as an `int32_t`, and the packet is
      refused with -1 exactly when that is not below the region's size. Nothing is written. */
  lemma HeaderSize(hw: Hardware, s: State, e: Event, name: seq<byte>, n: word)
    requires Shaped(s) && s.result.None? && Genuine(e) && e.packet.Data? && InSequence(s, e) && s.packets == 0
    requires Names(Payload(e), name, n)
    ensures var t := Step(hw, s, e);
            && t.size == ToI32(n) && t.name[..|name| + 1] == name + [0] && t.dest == s.dest && !IsClosing(s, e)
            && (t.size >= FLASH_SIZE <==> t.result.Some?) && (t.result.Some? ==> t.result == Some(-1))
            && (t.result.None? ==> t.packets == 1)
  {
    hide Step, Digits, Converted;
    SizeRoundTrip(n, s.field, s.size);
    HeaderText(hw, s, e, name, Digits(n));
  }

  /** The filename packet of a file of `n` bytes: refused with -1 exactly when `n` is not below the
      region's size, and otherwise taken, with `n` as the size. */
  lemma HeaderPacket(hw: Hardware, s: State, e: Event, name: seq<byte>, n: nat)
    requires Shaped(s) && s.result.None? && Genuine(e) && e.packet.Data? && InSequence(s, e) && s.packets == 0
    requires Announces(Payload(e), name, n)
    ensures var t := Step(hw, s, e);
            && t.size == n && t.name[..|name| + 1] == name + [0]
            && (n >= FLASH_SIZE <==> t.result.Some?) && (t.result.Some? ==> t.result == Some(-1))
  {
    hide Step, Names;
    HeaderSize(hw, s, e, name, n);
  }

  /** Every file of a session is governed by the size that its own filename packet announced. */
  ghost predicate Governed(h: History, name: seq<byte>, n: nat) {
    && (h.taken != [] && Announces(h.taken[0].payload, name, n) ==> h.base.size == n)
    && (h.files == 0 ==> h.sizes == if h.taken == [] then [] else [h.base.size])
  }

  lemma GovernedStep(hw: Hardware, s: State, e: Event, h: History, name: seq<byte>, n: nat)
    requires Shaped(s) && s.result.None? && Genuine(e) && Ordered(s, h) && Governed(h, name, n)
    ensures Governed(Observe(s, e, Step(hw, s, e), h), name, n)
  {
    hide Announces;
    if e.packet.Data? {
      DataStep(hw, s, e);
      if InSequence(s, e) && s.packets == 0 && Announces(Payload(e), name, n) {
        HeaderPacket(hw, s, e, name, n);
      }
    }
    hide Step;
  }

  lemma {:induction false} GovernedHolds(hw: Hardware, s: State, es: seq<Event>, name: seq<byte>, n: nat)
    requires Fresh(s) && AllGenuine(es)
    ensures Governed(Log(hw, s, es), name, n)
    decreases |es|
  {
    if es == [] {
    } else {
      GovernedHolds(hw, s, es[..|es| - 1], name, n);
      hide Governed, Step, Balanced, Budgeted, Explained;
      var t := Exec(hw, s, es[..|es| - 1]);
      if t.result.None? {
        BooksHold(hw, s, es[..|es| - 1]);
        GovernedStep(hw, t, es[|es| - 1], Log(hw, s, es[..|es| - 1]), name, n);
      }
    }
  }
}
