/** The header packet: the copy loops of `Ymodem_Receive`, and `Str2Int` and `FLASH_PagesMask` of
    `common.c`, which turn its size text into a page count. */
module Header {
  import opened Machine

  /** How many bytes a copy loop takes from `buf[from..]`: it stops at the byte `stop` or after
      `limit` bytes. The loop looks at the byte before it looks at the count. */
  function Scan(buf: seq<byte>, from: nat, stop: byte, limit: nat): (n: nat)
    requires from + limit < |buf|
    ensures n <= limit && forall k :: from <= k < from + n ==> buf[k] != stop
    ensures n < limit ==> buf[from + n] == stop
    decreases |buf| - from
  {
    if limit == 0 || buf[from] == stop then 0
    else 1 + Scan(buf, from + 1, stop, limit - 1)
  }

  /** A destination array after `n` bytes and a NUL were stored in it. */
  function Stored(dst: seq<byte>, src: seq<byte>): (r: seq<byte>)
    requires |src| < |dst|
    ensures |r| == |dst| && r[..|src|] == src && r[|src|] == 0 && r[|src| + 1..] == dst[|src| + 1..]
  {
    src + [0] + dst[|src| + 1..]
  }

  function NameLength(buf: seq<byte>): (n: nat)
    requires |buf| == PACKET_BUFFER
    ensures n <= FILE_NAME_LENGTH
  {
    Scan(buf, PACKET_HEADER, 0, FILE_NAME_LENGTH)
  }

  /** Index of the first byte of the size text: one byte behind the name is skipped. */
  function FieldStart(buf: seq<byte>): nat
    requires |buf| == PACKET_BUFFER
  {
    PACKET_HEADER + NameLength(buf) + 1
  }

  function FieldLength(buf: seq<byte>): (n: nat)
    requires |buf| == PACKET_BUFFER
    ensures n <= FILE_SIZE_LENGTH
  {
    Scan(buf, FieldStart(buf), SPACE, FILE_SIZE_LENGTH)
  }

  function NameText(buf: seq<byte>): seq<byte>
    requires |buf| == PACKET_BUFFER
  {
    buf[PACKET_HEADER..PACKET_HEADER + NameLength(buf)]
  }

  function FieldText(buf: seq<byte>): seq<byte>
    requires |buf| == PACKET_BUFFER
  {
    buf[FieldStart(buf)..FieldStart(buf) + FieldLength(buf)]
  }

  predicate IsDigit(c: byte) { 0x30 <= c <= 0x39 }

  predicate IsHexDigit(c: byte) { IsDigit(c) || 0x41 <= c <= 0x46 || 0x61 <= c <= 0x66 }

  function HexValue(c: byte): nat
    requires IsHexDigit(c)
  {
    if IsDigit(c) then c - 0x30 else if c <= 0x46 then c - 0x41 + 10 else c - 0x61 + 10
  }

  predicate IsKilo(c: byte) { c == 0x6B || c == 0x4B }
  predicate IsMega(c: byte) { c == 0x6D || c == 0x4D }
  predicate IsHexMark(c: byte) { c == 0x78 || c == 0x58 }

  /** The hexadecimal loop of `Str2Int`; `None` when the number is never stored. */
  function HexFrom(text: seq<byte>, i: nat, val: word): Option<word>
    requires i <= 11 <= |text|
    decreases |text| - i
  {
    if i == 11 then None
    else if text[i] == 0 then Some(val)
    else if IsHexDigit(text[i]) then HexFrom(text, i + 1, ToU32(val * 16 + HexValue(text[i])))
    else None
  }

  /** The decimal loop of `Str2Int`, with its `k` and `m` suffixes. */
  function DecFrom(text: seq<byte>, i: nat, val: word): Option<word>
    requires i <= 11 <= |text|
    decreases |text| - i
  {
    if i == 11 then None
    else if text[i] == 0 then Some(val)
    else if IsKilo(text[i]) && i > 0 then Some(ToU32(val * 0x400))
    else if IsMega(text[i]) && i > 0 then Some(ToU32(val * 0x10_0000))
    else if IsDigit(text[i]) then DecFrom(text, i + 1, ToU32(val * 10 + (text[i] - 0x30)))
    else None
  }

  function Parsed(text: seq<byte>): Option<word>
    requires 11 <= |text|
  {
    if text[0] == 0x30 && IsHexMark(text[1]) then
      if text[2] == 0 then None else HexFrom(text, 2, 0)
    else DecFrom(text, 0, 0)
  }

  /** `Str2Int`: the new value of `*intnum`, which keeps its old value when the text is no number. */
  function Converted(text: seq<byte>, before: int): int
    requires 11 <= |text|
  {
    match Parsed(text)
    case Some(v) => ToI32(v)
    case None => before
  }

  /** `Str2Int`, with the loops of the C function. */
  method Str2Int(inputstr: array<byte>, before: int) returns (res: nat, intnum: int)
    requires 11 <= inputstr.Length
    ensures intnum == Converted(inputstr[..], before)
    ensures res == if Parsed(inputstr[..]).Some? then 1 else 0
  {
    var i: nat, val: word := 0, 0;
    res, intnum := 0, before;
    ghost var text := inputstr[..];
    if inputstr[0] == 0x30 && IsHexMark(inputstr[1]) {
      if inputstr[2] == 0 {
        return;
      }
      i := 2;
      while i < 11
        invariant 2 <= i <= 11 && text == inputstr[..] && res == 0 && intnum == before
        invariant Parsed(text) == HexFrom(text, i, val)
      {
        var c := inputstr[i];
        if c == 0 {
          res, intnum := 1, ToI32(val);
          return;
        } else if IsHexDigit(c) {
          val := ToU32(val * 16 + HexValue(c));
        } else {
          return;
        }
        i := i + 1;
      }
    } else {
      while i < 11
        invariant i <= 11 && text == inputstr[..] && res == 0 && intnum == before
        invariant Parsed(text) == DecFrom(text, i, val)
      {
        var c := inputstr[i];
        if c == 0 {
          res, intnum := 1, ToI32(val);
          return;
        } else if IsKilo(c) && i > 0 {
          res, intnum := 1, ToI32(ToU32(val * 0x400));
          return;
        } else if IsMega(c) && i > 0 {
          res, intnum := 1, ToI32(ToU32(val * 0x10_0000));
          return;
        } else if IsDigit(c) {
          val := ToU32(val * 10 + (c as int - 0x30));
        } else {
          return;
        }
        i := i + 1;
      }
    }
  }

  /** `FLASH_PagesMask` on the `uint32_t` that its argument becomes. */
  function Pages(size: int): (n: nat)
    ensures PAGE_SIZE * n >= ToU32(size) > PAGE_SIZE * (n - 1)
    ensures 0 <= size <= FLASH_SIZE ==> PAGE_SIZE * n <= FLASH_SIZE
  {
    var s := ToU32(size);
    if s % PAGE_SIZE != 0 then s / PAGE_SIZE + 1 else s / PAGE_SIZE
  }

  // ---------------------------------------------------------------------------------------------
  // The two copies

  lemma {:induction false} ScanFinds(buf: seq<byte>, from: nat, stop: byte, limit: nat, text: seq<byte>)
    requires from + limit < |buf| && |text| < limit && stop !in text
    requires buf[from..from + |text| + 1] == text + [stop]
    ensures Scan(buf, from, stop, limit) == |text|
    decreases limit
  {
    var part := buf[from..from + |text| + 1];
    assert part[0] == buf[from] && part[|text|] == stop;
    if text != [] {
      assert buf[from] == text[0];
      assert buf[from + 1..from + |text| + 1] == part[1..] == text[1..] + [stop];
      ScanFinds(buf, from + 1, stop, limit - 1, text[1..]);
    }
  }

  lemma {:induction false} ScanRunsOver(buf: seq<byte>, from: nat, stop: byte, limit: nat)
    requires from + limit < |buf|
    ensures Scan(buf, from, stop, limit) == limit <==> stop !in buf[from..from + limit]
    decreases limit
  {
    var n := Scan(buf, from, stop, limit);
    if n < limit {
      assert buf[from..from + limit][n] == stop;
    }
  }

  lemma HeaderParts(buf: seq<byte>, name: seq<byte>, field: seq<byte>)
    requires |buf| == PACKET_BUFFER && |name| < FILE_NAME_LENGTH && |field| < FILE_SIZE_LENGTH
    requires name + [0] + field + [SPACE] <= buf[PACKET_HEADER..]
    ensures var from := PACKET_HEADER + |name| + 1;
            && buf[PACKET_HEADER..from] == name + [0]
            && buf[from..from + |field| + 1] == field + [SPACE]
  {
    var n, m := |name|, |field|;
    var text := name + [0] + field + [SPACE];
    var rest := buf[PACKET_HEADER..];
    assert rest[..n + m + 2] == text;
    assert buf[PACKET_HEADER..PACKET_HEADER + n + 1] == rest[..n + m + 2][..n + 1] == name + [0];
    var from := PACKET_HEADER + n + 1;
    assert buf[from..from + m + 1] == rest[..n + m + 2][n + 1..] == field + [SPACE];
  }

  /** A header that carries `name` and the size text `field` is read back exactly: for every
      non-NUL name shorter than 256 bytes and every size text without a space shorter than 16. */
  lemma HeaderRoundTrip(buf: seq<byte>, name: seq<byte>, field: seq<byte>)
    requires |buf| == PACKET_BUFFER && |name| < FILE_NAME_LENGTH && |field| < FILE_SIZE_LENGTH
    requires 0 !in name && SPACE !in field
    requires name + [0] + field + [SPACE] <= buf[PACKET_HEADER..]
    ensures NameText(buf) == name && FieldText(buf) == field
  {
    hide Scan;
    var n, m := |name|, |field|;
    var from := PACKET_HEADER + n + 1;
    HeaderParts(buf, name, field);
    ScanFinds(buf, PACKET_HEADER, 0, FILE_NAME_LENGTH, name);
    ScanFinds(buf, from, SPACE, FILE_SIZE_LENGTH, field);
    assert NameText(buf) == (name + [0])[..n];
    assert FieldText(buf) == (field + [SPACE])[..m];
  }

  /** The NUL stored behind the name (the size text) stays inside its 256 (16) byte array exactly
      when the packet has a NUL (a space) where the copy loop can see it; and no read of either
      loop passes index 276 of the 1029-byte packet buffer. */
  lemma HeaderBounds(buf: seq<byte>)
    requires |buf| == PACKET_BUFFER
    ensures NameLength(buf) < FILE_NAME_LENGTH
            <==> 0 in buf[PACKET_HEADER..PACKET_HEADER + FILE_NAME_LENGTH]
    ensures FieldLength(buf) < FILE_SIZE_LENGTH
            <==> SPACE in buf[FieldStart(buf)..FieldStart(buf) + FILE_SIZE_LENGTH]
    ensures PACKET_HEADER + NameLength(buf) <= 259 && FieldStart(buf) + FieldLength(buf) <= 276
  {
    ScanRunsOver(buf, PACKET_HEADER, 0, FILE_NAME_LENGTH);
    ScanRunsOver(buf, FieldStart(buf), SPACE, FILE_SIZE_LENGTH);
  }

  // ---------------------------------------------------------------------------------------------
  // Decimal sizes

  function Digits(n: nat): (ds: seq<byte>)
    ensures ds != [] && AllDigits(ds)
  {
    if n < 10 then [0x30 + n] else Digits(n / 10) + [0x30 + n % 10]
  }

  ghost predicate AllDigits(ds: seq<byte>) {
    forall i :: 0 <= i < |ds| ==> IsDigit(ds[i])
  }

  /** The number that the digits `ds` make when they follow a number `v`. */
  ghost function Value(v: nat, ds: seq<byte>): (r: nat)
    requires AllDigits(ds)
    ensures v <= r
    decreases |ds|
  {
    if ds == [] then v else Value(v * 10 + (ds[0] as int - 0x30), ds[1..])
  }

  lemma {:induction false} ValueLast(v: nat, ds: seq<byte>, d: byte)
    requires AllDigits(ds) && IsDigit(d)
    ensures Value(v, ds + [d]) == Value(v, ds) * 10 + (d as int - 0x30)
    decreases |ds|
  {
    if ds == [] {
      assert (ds + [d])[1..] == [];
    } else {
      assert (ds + [d])[1..] == ds[1..] + [d];
      ValueLast(v * 10 + (ds[0] as int - 0x30), ds[1..], d);
    }
  }

  lemma {:induction false} DigitsValue(n: nat)
    ensures Value(0, Digits(n)) == n
  {
    if n < 10 {
      assert Digits(n)[1..] == [];
    } else {
      DigitsValue(n / 10);
      ValueLast(0, Digits(n / 10), 0x30 + n % 10);
    }
  }

  lemma {:induction false} DigitsLength(n: nat, k: nat)
    requires 0 < k && n < Power10(k)
    ensures |Digits(n)| <= k
    decreases k
  {
    if n >= 10 {
      DigitsLength(n / 10, k - 1);
    }
  }

  function Power10(k: nat): nat {
    if k == 0 then 1 else 10 * Power10(k - 1)
  }

  /** One digit read. */
  lemma DecStep(text: seq<byte>, i: nat, v: word)
    requires i < 11 <= |text| && IsDigit(text[i]) && v * 10 + (text[i] as int - 0x30) < 0x1_0000_0000
    ensures DecFrom(text, i, v) == DecFrom(text, i + 1, v * 10 + (text[i] as int - 0x30))
  {
  }

  lemma {:induction false} DecReads(text: seq<byte>, i: nat, v: word, ds: seq<byte>)
    requires AllDigits(ds) && i + |ds| <= 10 && 11 <= |text|
    requires text[i..i + |ds|] == ds && text[i + |ds|] == 0
    requires Value(v, ds) < 0x1_0000_0000
    ensures DecFrom(text, i, v) == Some(Value(v, ds))
    decreases |ds|
  {
    if ds != [] {
      hide DecFrom;
      assert text[i] == text[i..i + |ds|][0] == ds[0];
      assert text[i + 1..i + |ds|] == text[i..i + |ds|][1..];
      var w := v * 10 + (ds[0] as int - 0x30);
      assert Value(v, ds) == Value(w, ds[1..]);
      hide Value;
      DecStep(text, i, v);
      DecReads(text, i + 1, w, ds[1..]);
    }
  }

  /** Every size below 2^32 written in decimal is read back; as `int32_t` it is itself below 2^31. */
  lemma SizeRoundTrip(n: nat, field: seq<byte>, before: int)
    requires n < 0x1_0000_0000 && |field| == FILE_SIZE_LENGTH + 1
    ensures |Digits(n)| <= 10 && SPACE !in Digits(n)
    ensures Converted(Stored(field, Digits(n)), before) == ToI32(n)
  {
    var ds := Digits(n);
    assert Power10(10) == 10000000000 by {
      assert Power10(5) == 100000;
      assert Power10(10) == 100000 * Power10(5);
    }
    DigitsLength(n, 10);
    DigitsValue(n);
    var text := Stored(field, ds);
    assert text[0..|ds|] == ds && text[|ds|] == 0;
    DecReads(text, 0, 0, ds);
    assert text[0] == ds[0] && (|ds| > 1 ==> text[1] == ds[1]);
    assert IsDigit(ds[0]) && (|ds| > 1 ==> IsDigit(ds[1]));
    assert forall i :: 0 <= i < |ds| ==> IsDigit(ds[i]) && ds[i] != SPACE;
  }

  // ---------------------------------------------------------------------------------------------
  // Every text

  /** What follows the digits `text[..k]` decides: a NUL, a suffix, or anything else. */
  ghost function Suffixed(text: seq<byte>, k: nat, v: nat): Option<word>
    requires k <= 11 <= |text|
  {
    if k == 11 then None
    else if text[k] == 0 then Some(ToU32(v))
    else if IsKilo(text[k]) && k > 0 then Some(ToU32(v * 0x400))
    else if IsMega(text[k]) && k > 0 then Some(ToU32(v * 0x10_0000))
    else None
  }

  lemma {:induction false} WrapMultiple(x: nat, q: nat)
    ensures ToU32(x + q * 0x1_0000_0000) == ToU32(x)
    decreases q
  {
    if q > 0 {
      WrapMultiple(x + 0x1_0000_0000, q - 1);
    }
  }

  /** Arithmetic mod 2^32 may wrap at every step or at the end. */
  lemma WrapScaled(v: nat, m: nat, d: nat)
    ensures ToU32(ToU32(v) * m + d) == ToU32(v * m + d)
  {
    var q, w: nat := v / 0x1_0000_0000, ToU32(v);
    assert v == w + q * 0x1_0000_0000;
    calc {
      v * m + d;
      (w + q * 0x1_0000_0000) * m + d;
      w * m + d + q * m * 0x1_0000_0000;
    }
    WrapMultiple(w * m + d, q * m);
  }

  lemma {:induction false} DecRun(text: seq<byte>, i: nat, k: nat, v: nat)
    requires i <= k <= 11 <= |text| && AllDigits(text[i..k]) && (k < 11 ==> !IsDigit(text[k])) && (i > 0 || v == 0)
    ensures DecFrom(text, i, ToU32(v)) == Suffixed(text, k, Value(v, text[i..k]))
    decreases k - i
  {
    if i == k {
      WrapScaled(v, 1, 0);
      WrapScaled(v, 0x400, 0);
      WrapScaled(v, 0x10_0000, 0);
    } else {
      hide ToU32;
      assert IsDigit(text[i..k][0]) && text[i..k][1..] == text[i + 1..k];
      var d: nat := text[i] as int - 0x30;
      WrapScaled(v, 10, d);
      DecRun(text, i + 1, k, v * 10 + d);
    }
  }

  /** The `int32_t` after a text was converted: the number, or the old value when the text is none. */
  function Valued(number: Option<word>, before: int): int {
    if number.Some? then ToI32(number.value) else before
  }

  /** `Str2Int` on every text without a hexadecimal mark: with `k` digits at the start, up to 10 of them, the
      number is theirs, times 1024 or 1048576 for a suffix, and mod 2^32; anything else is no number. */
  lemma DecimalText(text: seq<byte>, k: nat, before: int)
    requires k <= 11 <= |text| && AllDigits(text[..k]) && (k < 11 ==> !IsDigit(text[k]))
    requires !(text[0] == 0x30 && IsHexMark(text[1]))
    ensures Converted(text, before) == Valued(Suffixed(text, k, Value(0, text[..k])), before)
  {
    assert text[0..k] == text[..k];
    DecRun(text, 0, k, 0);
  }

  ghost predicate AllHexDigits(ds: seq<byte>) {
    forall i :: 0 <= i < |ds| ==> IsHexDigit(ds[i])
  }

  /** The number that the hexadecimal digits `ds` make when they follow a number `v`. */
  ghost function HexNumber(v: nat, ds: seq<byte>): nat
    requires AllHexDigits(ds)
    decreases |ds|
  {
    if ds == [] then v else HexNumber(v * 16 + HexValue(ds[0]), ds[1..])
  }

  lemma {:induction false} HexRun(text: seq<byte>, i: nat, k: nat, v: nat)
    requires i <= k <= 11 <= |text| && AllHexDigits(text[i..k]) && (k < 11 ==> !IsHexDigit(text[k]))
    ensures HexFrom(text, i, ToU32(v))
            == if k < 11 && text[k] == 0 then Some(ToU32(HexNumber(v, text[i..k]))) else None
    decreases k - i
  {
    if i < k {
      hide ToU32;
      assert IsHexDigit(text[i..k][0]) && text[i..k][1..] == text[i + 1..k];
      WrapScaled(v, 16, HexValue(text[i]));
      HexRun(text, i + 1, k, v * 16 + HexValue(text[i]));
    }
  }

  /** `Str2Int` on every text with a hexadecimal mark: up to 8 digits and a NUL are their number, which fits;
      anything else is none. */
  lemma HexText(text: seq<byte>, k: nat, before: int)
    requires 2 <= k <= 11 <= |text| && AllHexDigits(text[2..k]) && (k < 11 ==> !IsHexDigit(text[k]))
    requires text[0] == 0x30 && IsHexMark(text[1])
    ensures Converted(text, before)
            == Valued(if 2 < k < 11 && text[k] == 0 then Some(ToU32(HexNumber(0, text[2..k]))) else None, before)
    ensures k < 11 ==> HexNumber(0, text[2..k]) < 0x1_0000_0000
  {
    HexRun(text, 2, k, 0);
    if k < 11 {
      HexFits(text[2..k], 0, 8);
      assert Power16(8) == 0x1_0000_0000 by {
        assert Power16(4) == 0x1_0000;
        assert Power16(8) == 0x1_0000 * Power16(4);
      }
    }
  }

  function Power16(k: nat): nat {
    if k == 0 then 1 else 16 * Power16(k - 1)
  }

  lemma {:induction false} HexFits(ds: seq<byte>, v: nat, k: nat)
    requires AllHexDigits(ds) && |ds| <= k
    ensures HexNumber(v, ds) < (v + 1) * Power16(k)
    decreases |ds|
  {
    Power16Positive(k);
    if ds == [] {
      Scales(v + 1, 1, Power16(k));
    } else {
      var w := v * 16 + HexValue(ds[0]);
      HexFits(ds[1..], w, k - 1);
      Grows(w + 1, (v + 1) * 16, Power16(k - 1));
      Regroups(v + 1, Power16(k - 1));
    }
  }

  lemma Scales(a: nat, b: nat, c: nat)
    requires b <= c
    ensures a * b <= a * c
  {
  }

  lemma Grows(a: nat, b: nat, c: nat)
    requires a <= b
    ensures a * c <= b * c
  {
  }

  lemma Regroups(a: nat, p: nat)
    ensures a * 16 * p == a * (16 * p)
  {
  }

  lemma {:induction false} Power16Positive(k: nat)
    ensures Power16(k) >= 1
  {
    if k > 0 {
      Power16Positive(k - 1);
    }
  }

  // ---------------------------------------------------------------------------------------------
  // Texts as a sender writes them

  /** A character as the byte that is sent. */
  function Code(c: char): byte { c as int % 0x100 }

  const DECIMALS: string := "0123456789"
  const LOWER: string := "0123456789abcdef"
  const UPPER: string := "0123456789ABCDEF"

  /** Which characters are digits, hexadecimal digits, suffixes and marks. */
  lemma Letters(c: char)
    requires c as int < 0x80
    ensures IsDigit(Code(c)) <==> c in DECIMALS
    ensures IsHexDigit(Code(c)) <==> c in LOWER || c in UPPER
    ensures IsKilo(Code(c)) <==> c in "kK"
    ensures IsMega(Code(c)) <==> c in "mM"
    ensures IsHexMark(Code(c)) <==> c in "xX"
  {
    assert c in DECIMALS <==> '0' <= c <= '9' by { InRange(c, DECIMALS, '0'); }
    assert c in LOWER <==> '0' <= c <= '9' || 'a' <= c <= 'f' by {
      InRange(c, "0123456789", '0');
      InRange(c, "abcdef", 'a');
      assert LOWER == "0123456789" + "abcdef";
    }
    assert c in UPPER <==> '0' <= c <= '9' || 'A' <= c <= 'F' by {
      InRange(c, "0123456789", '0');
      InRange(c, "ABCDEF", 'A');
      assert UPPER == "0123456789" + "ABCDEF";
    }
  }

  /** Characters in a row. */
  lemma InRange(c: char, row: string, first: char)
    requires 0 < |row| && first as int + |row| < 0x80 && forall i :: 0 <= i < |row| ==> row[i] as int == first as int + i
    ensures c in row <==> first as int <= c as int < first as int + |row|
  {
    if first as int <= c as int < first as int + |row| {
      assert row[c as int - first as int] == c;
    }
  }

  /** The number `n` in base 16, written with the digits of a table. */
  function HexDigits(n: nat, table: string): (ds: seq<byte>)
    requires |table| == 16
    ensures ds != []
  {
    if n < 16 then [Code(table[n])] else HexDigits(n / 16, table) + [Code(table[n % 16])]
  }

  lemma DigitReads(d: nat, table: string)
    requires d < 16 && (table == LOWER || table == UPPER)
    ensures IsHexDigit(Code(table[d])) && HexValue(Code(table[d])) == d
  {
  }

  lemma {:induction false} HexLast(v: nat, ds: seq<byte>, d: byte)
    requires AllHexDigits(ds + [d]) && AllHexDigits(ds) && IsHexDigit(d)
    ensures HexNumber(v, ds + [d]) == HexNumber(v, ds) * 16 + HexValue(d)
    decreases |ds|
  {
    if ds == [] {
      assert [] + [d] == [d] && [d][1..] == [];
    } else {
      assert (ds + [d])[1..] == ds[1..] + [d];
      HexLast(v * 16 + HexValue(ds[0]), ds[1..], d);
    }
  }

  lemma {:induction false} HexDigitsRead(n: nat, table: string, k: nat)
    requires (table == LOWER || table == UPPER) && n < Power16(k) && k > 0
    ensures AllHexDigits(HexDigits(n, table)) && HexNumber(0, HexDigits(n, table)) == n && |HexDigits(n, table)| <= k
    decreases n
  {
    hide HexValue, IsHexDigit, Code;
    DigitReads(n % 16, table);
    if n < 16 {
      assert n % 16 == n;
      assert HexDigits(n, table) == [Code(table[n])] && [Code(table[n])][1..] == [];
    } else {
      assert Power16(k) == 16 * Power16(k - 1);
      HexDigitsRead(n / 16, table, k - 1);
      HexLast(0, HexDigits(n / 16, table), Code(table[n % 16]));
    }
  }

  /** Every size below 2^32 written in base 16, in either case and behind either mark, is read back. */
  lemma HexRoundTrip(n: nat, table: string, mark: char, field: seq<byte>, before: int)
    requires n < 0x1_0000_0000 && (table == LOWER || table == UPPER) && mark in "xX" && |field| == FILE_SIZE_LENGTH + 1
    ensures |HexDigits(n, table)| <= 8
    ensures Converted(Stored(field, [Code('0'), Code(mark)] + HexDigits(n, table)), before) == ToI32(n)
  {
    hide HexDigits, HexNumber, HexValue, Converted;
    assert Power16(8) == 0x1_0000_0000 by {
      assert Power16(4) == 0x1_0000;
      assert Power16(8) == 0x1_0000 * Power16(4);
    }
    HexDigitsRead(n, table, 8);
    var ds := HexDigits(n, table);
    var text := Stored(field, [Code('0'), Code(mark)] + ds);
    assert text[2..|ds| + 2] == ds;
    HexText(text, |ds| + 2, before);
  }

  /** Every decimal number below 2^32 with a suffix is read back, times 2^10 or 2^20, mod 2^32. */
  lemma SuffixRoundTrip(n: nat, suffix: char, field: seq<byte>, before: int)
    requires n < 0x1_0000_0000 && suffix in "kKmM" && |field| == FILE_SIZE_LENGTH + 1
    ensures |Digits(n)| <= 10
    ensures Converted(Stored(field, Digits(n) + [Code(suffix)]), before)
            == ToI32(ToU32(n * if suffix in "kK" then 0x400 else 0x10_0000))
  {
    hide Converted;
    SizeRoundTrip(n, field, before);
    DigitsValue(n);
    var ds := Digits(n);
    var text := Stored(field, ds + [Code(suffix)]);
    assert text[..|ds|] == ds && text[|ds|] == Code(suffix);
    assert |ds| > 1 ==> text[1] == ds[1];
    DecimalText(text, |ds|, before);
  }
}
