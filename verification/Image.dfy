/** What a file leaves in flash: the words of its concatenated payloads, cut to its size rounded up
    to a word, on top of the erased pages, however the file was cut into packets. */
module Image {
  import opened Machine
  import opened Flash
  import opened Session

  /** Bytes that the programming loop still takes before a write at `dest` stops: up to the word
      that holds the last byte of an image of `size` bytes. */
  function Room(dest: nat, size: int): (r: nat)
    ensures r == 0 <==> dest >= APPLICATION_ADDRESS + size
    ensures r > 0 ==> r % 4 == 0 && r - 4 < APPLICATION_ADDRESS + size - dest <= r
  {
    var left := APPLICATION_ADDRESS + size - dest;
    if left <= 0 then 0 else (left + 3) / 4 * 4
  }

  /** The size is one for which `ApplicationAddress + size` does not wrap to a huge address. */
  predicate Tame(size: int) {
    0 <= APPLICATION_ADDRESS + size && size <= FLASH_SIZE - 1
  }

  /** An aligned destination inside the application's region, or at its end. */
  predicate InRegion(dest: nat) {
    dest % 4 == 0 && APPLICATION_ADDRESS <= dest <= APPLICATION_ADDRESS + FLASH_SIZE
  }

  function Min(a: nat, b: nat): nat { if a < b then a else b }

  /** Flash contents after the words of `data` went to `addr` and on. */
  function Burn(flash: Words, addr: nat, data: seq<byte>): (r: Words)
    requires |data| % 4 == 0
    ensures r.Keys == flash.Keys
  {
    map a | a in flash ::
      if Covered(a, addr, |data|) then WordAt(data, a - addr) else flash[a]
  }

  /** The program operations for the words of `data`, in order. */
  function Writes(addr: nat, data: seq<byte>): (ops: seq<FlashOp>)
    requires |data| % 4 == 0 && addr + |data| <= 0x1_0000_0000
    ensures |ops| == |data| / 4
  {
    seq(|data| / 4, i requires 0 <= i < |data| / 4 => Program(addr + 4 * i, WordAt(data, 4 * i)))
  }

  lemma WordPrefix(a: seq<byte>, b: seq<byte>, i: nat)
    requires i + 4 <= |a|
    ensures WordAt(a + b, i) == WordAt(a, i)
  {
  }

  lemma WordSuffix(a: seq<byte>, b: seq<byte>, i: nat)
    requires i + 4 <= |b|
    ensures WordAt(a + b, |a| + i) == WordAt(b, i)
  {
  }

  /** Whether a burn of `n` bytes at `addr` writes the word at `a`. */
  predicate Covered(a: nat, addr: nat, n: nat) {
    addr <= a < addr + n && (a - addr) % 4 == 0
  }

  lemma CoveredMore(a: nat, addr: nat, n: nat, m: nat)
    requires n % 4 == m % 4 == 0
    ensures Covered(a, addr, n + m) <==> Covered(a, addr, n) || Covered(a, addr + n, m)
    ensures Covered(a, addr, n) ==> 0 <= a - addr <= n - 4 && !Covered(a, addr + n, m)
    ensures Covered(a, addr + n, m) ==> 0 <= a - addr - n <= m - 4
  {
  }

  lemma BurnMore(flash: Words, addr: nat, a: seq<byte>, b: seq<byte>)
    requires |a| % 4 == |b| % 4 == 0
    ensures Burn(Burn(flash, addr, a), addr + |a|, b) == Burn(flash, addr, a + b)
  {
    hide WordAt, Covered;
    var mid := Burn(flash, addr, a);
    forall x | x in flash
      ensures Burn(mid, addr + |a|, b)[x] == Burn(flash, addr, a + b)[x]
    {
      CoveredMore(x, addr, |a|, |b|);
      if Covered(x, addr, |a|) {
        WordPrefix(a, b, x - addr);
      } else if Covered(x, addr + |a|, |b|) {
        WordSuffix(a, b, x - addr - |a|);
      }
    }
  }

  lemma WritesMore(addr: nat, a: seq<byte>, b: seq<byte>)
    requires |a| % 4 == |b| % 4 == 0 && addr + |a| + |b| <= 0x1_0000_0000
    ensures Writes(addr, a) + Writes(addr + |a|, b) == Writes(addr, a + b)
  {
    var n, m := |a| / 4, |b| / 4;
    forall i | 0 <= i < n + m
      ensures (Writes(addr, a) + Writes(addr + |a|, b))[i] == Writes(addr, a + b)[i]
    {
      if i < n {
        WordPrefix(a, b, 4 * i);
      } else {
        WordSuffix(a, b, 4 * (i - n));
      }
    }
  }

  /** The first `n` bytes of `c` are read from the device at `addr` and on, byte by byte. */
  ghost predicate LiesAt(flash: Words, addr: nat, c: seq<byte>, n: nat)
    requires n <= |c|
  {
    forall i :: 0 <= i < n && Mapped(flash, addr + i) ==> ByteAt(flash, addr + i) == c[i]
  }

  /** The byte at `addr + i` is one of the word at `addr + (i - i % 4)`. */
  lemma InWord(addr: nat, i: nat)
    requires addr % 4 == 0
    ensures addr + i - (addr + i) % 4 == addr + (i - i % 4) && (addr + i) % 4 == i % 4
  {
  }

  lemma BurntByte(flash: Words, addr: nat, data: seq<byte>, i: nat)
    requires |data| % 4 == 0 && addr % 4 == 0 && i < |data| && Mapped(flash, addr + i)
    ensures Mapped(Burn(flash, addr, data), addr + i) && ByteAt(Burn(flash, addr, data), addr + i) == data[i]
  {
    hide WordAt, ByteOf;
    InWord(addr, i);
    WordBytes(data, i - i % 4, i % 4);
  }

  lemma BurnLies(flash: Words, addr: nat, c: seq<byte>, n: nat)
    requires n % 4 == 0 && n <= |c| && addr % 4 == 0
    ensures LiesAt(Burn(flash, addr, c[..n]), addr, c, n)
  {
    hide Burn, ByteAt;
    forall i | 0 <= i < n && Mapped(Burn(flash, addr, c[..n]), addr + i)
      ensures ByteAt(Burn(flash, addr, c[..n]), addr + i) == c[i]
    {
      BurntByte(flash, addr, c[..n], i);
    }
  }

  /** The word at `a` of the device is not the one that bytes `p` to `p + 3` of `c` make. */
  ghost predicate WrongAt(flash: Words, a: nat, c: seq<byte>, p: nat)
    requires p + 4 <= |c|
  {
    a in flash ==> exists k :: 0 <= k < 4 && ByteOf(flash[a], k) != c[p + k]
  }

  lemma BurnNone(flash: Words, addr: nat)
    ensures Burn(flash, addr, []) == flash && (addr <= 0x1_0000_0000 ==> Writes(addr, []) == [])
  {
  }

  // ---------------------------------------------------------------------------------------------
  // One packet

  /** From `s` to `r` the words of `data` were programmed and verified. */
  ghost predicate Wrote(s: State, r: State, data: seq<byte>) {
    && |data| % 4 == 0 && s.dest + |data| < 0x1_0000_0000
    && r.dest == s.dest + |data|
    && r.ops == s.ops + Writes(s.dest, data)
    && r.flash == Burn(s.flash, s.dest, data)
  }

  /** From `s` to `r` the words of `data` were programmed, and the last one failed to verify. */
  ghost predicate Broke(s: State, r: State, data: seq<byte>) {
    && |data| % 4 == 0 && 0 < |data| && s.dest + |data| < 0x1_0000_0000
    && r.dest == s.dest + |data| - 4
    && r.ops == s.ops + Writes(s.dest, data)
    && r.flash.Keys == s.flash.Keys
    && (forall a :: a in s.flash && a != r.dest ==>
          r.flash[a] == Burn(s.flash, s.dest, data[..|data| - 4])[a])
    && (r.dest in s.flash ==> r.flash[r.dest] != WordAt(data, |data| - 4))
  }

  lemma OneWord(hw: Hardware, s: State, data: seq<byte>)
    requires |data| == 4 && s.result.None? && s.dest + 4 < 0x1_0000_0000
    ensures var r := ProgramOne(hw, s, WordAt(data, 0));
            if r.result.None? then Wrote(s, r, data) else Broke(s, r, data)
  {
    assert Writes(s.dest, data) == [Program(s.dest, WordAt(data, 0))];
    var r := ProgramOne(hw, s, WordAt(data, 0));
    if r.result.None? {
      forall a | a in s.flash
        ensures r.flash[a] == Burn(s.flash, s.dest, data)[a]
      {
      }
    } else {
      BurnNone(s.flash, s.dest);
      assert data[..0] == [];
    }
  }

  lemma WroteThenWrote(s: State, t: State, r: State, a: seq<byte>, b: seq<byte>)
    requires Wrote(s, t, a) && Wrote(t, r, b)
    ensures Wrote(s, r, a + b)
  {
    BurnMore(s.flash, s.dest, a, b);
    WritesMore(s.dest, a, b);
    hide Burn, Writes;
    assert s.ops + Writes(s.dest, a) + Writes(t.dest, b) == s.ops + (Writes(s.dest, a) + Writes(t.dest, b));
  }

  lemma WroteThenBroke(s: State, t: State, r: State, a: seq<byte>, b: seq<byte>)
    requires Wrote(s, t, a) && Broke(t, r, b)
    ensures Broke(s, r, a + b)
  {
    hide Burn, Writes, WordAt;
    var b' := b[..|b| - 4];
    BurnMore(s.flash, s.dest, a, b');
    WritesMore(s.dest, a, b);
    WordSuffix(a, b, |b| - 4);
    assert (a + b)[..|a + b| - 4] == a + b';
    assert s.ops + Writes(s.dest, a) + Writes(t.dest, b) == s.ops + (Writes(s.dest, a) + Writes(t.dest, b));
  }

  lemma RoomAfterWord(dest: nat, size: int)
    requires dest < APPLICATION_ADDRESS + size
    ensures Room(dest, size) == Room(dest + 4, size) + 4
  {
  }

  /** How many of the packet's bytes `j` to `n - 1` the loop programs from `dest` on. */
  function Fitting(dest: nat, size: int, j: nat, n: nat): (m: nat)
    requires j <= n
    ensures m <= n - j
  {
    Min(n - j, Room(dest, size))
  }

  lemma FittingMore(dest: nat, size: int, j: nat, n: nat)
    requires j + 4 <= n && dest < APPLICATION_ADDRESS + size
    ensures Fitting(dest, size, j, n) == Fitting(dest + 4, size, j + 4, n) + 4
  {
    RoomAfterWord(dest, size);
    hide Room;
  }

  /** What the programming loop makes of bytes `j` to `n - 1` of the RAM buffer: all that the image
      has room for is in flash, unless a word fails to verify; then everything below it is. */
  ghost predicate Packed(s: State, r: State, j: nat, n: nat)
    requires j <= n <= |s.ram|
  {
    var m := Fitting(s.dest, s.size, j, n);
    if r.result.None? then Wrote(s, r, s.ram[j..j + m])
    else s.dest <= r.dest && r.dest - s.dest + 4 <= m && Broke(s, r, s.ram[j..j + (r.dest - s.dest) + 4])
  }

  lemma PackedMore(s: State, t: State, r: State, j: nat, n: nat)
    requires j + 4 <= n <= |s.ram| && s.dest < APPLICATION_ADDRESS + s.size
    requires Wrote(s, t, s.ram[j..j + 4]) && t.ram == s.ram && t.size == s.size && t.dest == s.dest + 4
    requires Packed(t, r, j + 4, n)
    ensures Packed(s, r, j, n)
  {
    hide Fitting, Wrote, Broke;
    FittingMore(s.dest, s.size, j, n);
    var m := Fitting(t.dest, t.size, j + 4, n);
    if r.result.None? {
      WroteThenWrote(s, t, r, s.ram[j..j + 4], s.ram[j + 4..j + 4 + m]);
      assert s.ram[j..j + 4] + s.ram[j + 4..j + 4 + m] == s.ram[j..j + (m + 4)];
    } else {
      var k := r.dest - t.dest + 4;
      WroteThenBroke(s, t, r, s.ram[j..j + 4], s.ram[j + 4..j + 4 + k]);
      assert s.ram[j..j + 4] + s.ram[j + 4..j + 4 + k] == s.ram[j..j + (r.dest - s.dest) + 4];
    }
  }

  lemma FirstWord(hw: Hardware, s: State, j: nat)
    requires |s.ram| == PACKET_1K_SIZE && j + 4 <= PACKET_1K_SIZE
    requires s.result.None? && Tame(s.size) && InRegion(s.dest) && s.dest < Limit(s.size)
    ensures var t := ProgramOne(hw, s, WordAt(s.ram, j));
            && s.dest < APPLICATION_ADDRESS + s.size
            && (t.result.None? ==> Wrote(s, t, s.ram[j..j + 4]) && InRegion(t.dest) && t.dest == s.dest + 4)
            && (t.result.Some? ==> Broke(s, t, s.ram[j..j + 4]) && t.dest == s.dest)
  {
    var word := s.ram[j..j + 4];
    assert WordAt(word, 0) == WordAt(s.ram, j);
    OneWord(hw, s, word);
    hide ProgramOne, WordAt, Writes, Burn;
  }

  lemma PackedNothing(s: State, j: nat, n: nat)
    requires j <= n <= |s.ram| && s.result.None? && (j == n || s.dest >= APPLICATION_ADDRESS + s.size)
    ensures Packed(s, s, j, n)
  {
    BurnNone(s.flash, s.dest);
    hide Burn, Writes;
    assert s.ram[j..j] == [];
  }

  lemma BrokeAtOnce(s: State, t: State, j: nat, n: nat)
    requires j + 4 <= n <= |s.ram| && s.dest < APPLICATION_ADDRESS + s.size
    requires t.result.Some? && t.dest == s.dest && Broke(s, t, s.ram[j..j + 4])
    ensures Packed(s, t, j, n)
  {
    hide Fitting, Broke;
    FittingMore(s.dest, s.size, j, n);
  }

  lemma {:induction false} PacketImage(hw: Hardware, s: State, j: nat, n: nat)
    requires |s.ram| == PACKET_1K_SIZE && j <= n <= PACKET_1K_SIZE && j % 4 == n % 4 == 0
    requires s.result.None? && Tame(s.size) && InRegion(s.dest)
    ensures Packed(s, Programmed(hw, s, j, n), j, n)
    decreases n - j
  {
    hide ProgramOne, WordAt, Wrote, Broke, InRegion, Fitting;
    if j < n && s.dest < Limit(s.size) {
      FirstWord(hw, s, j);
      var t := ProgramOne(hw, s, WordAt(s.ram, j));
      if t.result.None? {
        PacketImage(hw, t, j + 4, n);
        hide Packed;
        PackedMore(s, t, Programmed(hw, t, j + 4, n), j, n);
      } else {
        BrokeAtOnce(s, t, j, n);
        assert Programmed(hw, t, j + 4, n) == t;
      }
    } else {
      PackedNothing(s, j, n);
    }
  }
}
