/** The flash device: words by address, page erases and word programs whose success the hardware
    decides, and a log of both. */
module Flash {
  import opened Machine

  /** Contents of the device's words; an address that is no key belongs to no word of the device. */
  type Words = map<nat, word>

  datatype FlashOp = Erase(page: word, done: bool) | Program(addr: word, data: word)

  /** What the hardware makes of the operations, numbered from the start of the session: whether
      erase `k` at a page completes, what word `a` holds after an erase `k` that did not complete or
      after program `k`, and what reading an address outside the device gives. */
  datatype Hardware = Hardware(
    completes: (nat, word) -> bool,
    left: (nat, nat) -> word,
    bus: (nat, word) -> word)

  function PageOf(a: nat): nat { a / PAGE_SIZE }

  function AfterErase(hw: Hardware, flash: Words, k: nat, page: word): (r: Words)
    ensures r.Keys == flash.Keys
    ensures forall a :: a in flash && PageOf(a) != PageOf(page) ==> r[a] == flash[a]
    ensures hw.completes(k, page) ==> forall a :: a in flash && PageOf(a) == PageOf(page) ==> r[a] == ERASED
  {
    map a | a in flash ::
      if PageOf(a) != PageOf(page) then flash[a] else if hw.completes(k, page) then ERASED else hw.left(k, a)
  }

  function AfterProgram(hw: Hardware, flash: Words, k: nat, addr: word): (r: Words)
    ensures r.Keys == flash.Keys
    ensures forall a :: a in flash && a != addr ==> r[a] == flash[a]
  {
    if addr in flash then flash[addr := hw.left(k, addr)] else flash
  }

  function ReadWord(hw: Hardware, flash: Words, k: nat, addr: word): word {
    if addr in flash then flash[addr] else hw.bus(k, addr)
  }

  /** The little-endian word at `bytes[i..i + 4]`. */
  function WordAt(bytes: seq<byte>, i: nat): word
    requires i + 4 <= |bytes|
  {
    bytes[i] as int + 0x100 * bytes[i + 1] as int + 0x1_0000 * bytes[i + 2] as int + 0x100_0000 * bytes[i + 3] as int
  }

  /** Byte `k` of a word as the little-endian target stores it: byte 0 is the lowest. */
  function ByteOf(w: nat, k: nat): byte {
    if k == 0 then w % 0x100 else ByteOf(w / 0x100, k - 1)
  }

  /** The byte at `a` is one of a word of the device. */
  predicate Mapped(flash: Words, a: nat) { a - a % 4 in flash }

  /** The byte that a reader of the device sees at address `a`. */
  function ByteAt(flash: Words, a: nat): byte
    requires Mapped(flash, a)
  {
    ByteOf(flash[a - a % 4], a % 4)
  }

  lemma LowByte(b: byte, rest: nat, k: nat)
    ensures ByteOf(b + 0x100 * rest, k) == if k == 0 then b else ByteOf(rest, k - 1)
  {
    assert (b + 0x100 * rest) / 0x100 == rest;
  }

  /** A word programmed from four bytes is read as these bytes, in order. */
  lemma WordBytes(bytes: seq<byte>, i: nat, k: nat)
    requires i + 4 <= |bytes| && k < 4
    ensures ByteOf(WordAt(bytes, i), k) == bytes[i + k]
  {
    var b: byte, c: byte, d: byte, e: byte := bytes[i], bytes[i + 1], bytes[i + 2], bytes[i + 3];
    var v: nat := d + 0x100 * e;
    var w: nat := c + 0x100 * v;
    assert WordAt(bytes, i) == b + 0x100 * w;
    LowByte(b, w, k);
    if k > 0 {
      LowByte(c, v, k - 1);
      if k > 1 {
        LowByte(d, e, k - 2);
      }
    }
  }

  /** Two words are the same when their bytes are. */
  lemma EqualWords(v: word, w: word)
    requires forall k :: 0 <= k < 4 ==> ByteOf(v, k) == ByteOf(w, k)
    ensures v == w
  {
    EqualNumbers(v, w, 4, 0x1_0000_0000);
  }

  lemma {:induction false} EqualNumbers(v: nat, w: nat, n: nat, top: nat)
    requires forall k :: 0 <= k < n ==> ByteOf(v, k) == ByteOf(w, k)
    requires v < top && w < top && top == Power256(n)
    ensures v == w
    decreases n
  {
    if n > 0 {
      assert ByteOf(v, 0) == ByteOf(w, 0);
      forall k | 0 <= k < n - 1
        ensures ByteOf(v / 0x100, k) == ByteOf(w / 0x100, k)
      {
        assert ByteOf(v, k + 1) == ByteOf(w, k + 1);
      }
      EqualNumbers(v / 0x100, w / 0x100, n - 1, Power256(n - 1));
    }
  }

  function Power256(n: nat): nat { if n == 0 then 1 else 0x100 * Power256(n - 1) }

  /** A word that is not the one made of four bytes has a byte that is not one of these in its place. */
  lemma WordDiffers(w: word, bytes: seq<byte>, i: nat) returns (k: nat)
    requires i + 4 <= |bytes| && w != WordAt(bytes, i)
    ensures k < 4 && ByteOf(w, k) != bytes[i + k]
  {
    hide WordAt, ByteOf;
    forall j | 0 <= j < 4
      ensures ByteOf(WordAt(bytes, i), j) == bytes[i + j]
    {
      WordBytes(bytes, i, j);
    }
    k := if ByteOf(w, 0) != bytes[i] then 0 else if ByteOf(w, 1) != bytes[i + 1] then 1 else if ByteOf(w, 2) != bytes[i + 2] then 2 else 3;
    if ByteOf(w, k) == bytes[i + k] {
      EqualWords(w, WordAt(bytes, i));
    }
  }
}
