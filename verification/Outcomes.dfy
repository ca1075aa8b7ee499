/** What the value that `Ymodem_Receive` returns says, on any line and any device. */
module Outcomes {
  import opened Machine
  import opened Framing
  import opened Flash
  import opened Session
  import opened Ledger
  import opened Image
  import opened FileImage
  import opened FirstFile
  import opened Texts
  import R = Receiver
  import J = Journal

  /** How much of the latest file's content is in flash when no word failed. */
  ghost function Stretch(h: History): nat {
    Min(|Content(h)|, Room(h.base.dest, h.base.size))
  }

  /** The latest file lies in flash from the destination at its filename packet on, as far as it goes, and the
      destination is behind it. */
  ghost predicate Lies(t: State, h: History) {
    var n := Stretch(h);
    n % 4 == 0 && t.dest == h.base.dest + n && LiesAt(t.flash, h.base.dest, Content(h), n)
  }

  lemma KeptLies(t: State, h: History)
    requires h.broken == [] && Kept(h.base, t, h) && InRegion(h.base.dest)
    ensures Lies(t, h)
  {
    hide Content, Burn, Writes, Room;
    BurnLies(h.base.flash, h.base.dest, Content(h), Stretch(h));
  }

  /** A positive value comes after an empty filename packet only. */
  lemma Positive(hw: Hardware, s: State, es: seq<Event>, v: int)
    requires Fresh(s) && AllGenuine(es) && Exec(hw, s, es).result == Some(v) && v > 0
    ensures var t, h := Exec(hw, s, es), Log(hw, s, es);
            && h.closings == 1 && !h.open && h.broken == [] && h.taken != [] && h.base.size == t.size == v
            && h.sizes != [] && h.sizes[|h.sizes| - 1] == v
  {
    hide Exec, Log, Content, Kept, Tame, Balanced, Budgeted, Numbered;
    BooksHold(hw, s, es);
    ImageHolds(hw, s, es);
  }

  /** A positive value is the size announced last. As much of that file as came and has room is in flash, from
      where the destination was; the destination has passed the end of the image exactly when enough came. */
  lemma Returned(hw: Hardware, s: State, es: seq<Event>, v: int)
    requires Fresh(s) && AllGenuine(es) && Exec(hw, s, es).result == Some(v) && v > 0
    requires AllTame(Log(hw, s, es).sizes)
    ensures var t, h := Exec(hw, s, es), Log(hw, s, es);
            && h.base.size == v && h.sizes != [] && h.sizes[|h.sizes| - 1] == v && Lies(t, h)
            && (APPLICATION_ADDRESS + v <= t.dest <==> Room(h.base.dest, v) <= |Content(h)|)
  {
    hide Exec, Log, Content, Kept, Lies, LiesAt;
    Positive(hw, s, es, v);
    ImageHolds(hw, s, es);
    var t, h := Exec(hw, s, es), Log(hw, s, es);
    KeptLies(t, h);
    PastEnd(t, h, v);
  }

  lemma PastEnd(t: State, h: History, v: int)
    requires Lies(t, h) && h.base.size == v && Whole(h)
    ensures APPLICATION_ADDRESS + v <= t.dest <==> Room(h.base.dest, v) <= |Content(h)|
  {
    hide Content, LiesAt;
  }

  /** When one filename packet was taken, a positive value is its size, the file lies at the start of the region,
      no word off its pages has changed, and it is whole exactly when as many bytes came as were announced. */
  lemma ReturnedOne(hw: Hardware, s: State, es: seq<Event>, v: int)
    requires Fresh(s) && AllGenuine(es) && Exec(hw, s, es).result == Some(v) && v > 0 && |Log(hw, s, es).sizes| == 1
    ensures var t, h := Exec(hw, s, es), Log(hw, s, es);
            && h.sizes == [v] && t.dest == APPLICATION_ADDRESS + Min(|Content(h)|, Rounded(v))
            && Min(|Content(h)|, Rounded(v)) % 4 == 0 && InFlash(t.flash, Content(h), Min(|Content(h)|, Rounded(v)))
            && ElsewhereSame(s.flash, t.flash, v)
            && (t.dest == APPLICATION_ADDRESS + Rounded(v) <==> v <= |Content(h)|)
  {
    hide Exec, Log, Content, Room, InFlash, ElsewhereSame, Kept, Tame;
    Positive(hw, s, es, v);
    ImageHolds(hw, s, es);
    var t, h := Exec(hw, s, es), Log(hw, s, es);
    assert h.sizes == [v];
    OneSize(v, h.sizes, t.size);
    FirstFileImage(hw, s, es);
    Enough(|Content(h)|, v);
  }

  lemma OneSize(v: int, sizes: seq<int>, size: int)
    requires sizes == [v] && 0 < v < FLASH_SIZE
    ensures AllTame(sizes)
  {
  }

  lemma Enough(c: nat, v: nat)
    requires c % 4 == 0
    ensures Rounded(v) <= c <==> v <= c
  {
  }

  // ---------------------------------------------------------------------------------------------
  // The caller

  /** The text that an array holds, as `SerialPutString` prints it: the bytes before the first NUL. */
  function Printed(bs: seq<byte>): (r: seq<byte>)
    ensures r <= bs && 0 !in r && (|r| < |bs| ==> bs[|r|] == 0)
  {
    if bs == [] || bs[0] == 0 then [] else [bs[0]] + Printed(bs[1..])
  }

  /** The name is the text before the first NUL of the payload, when there is room for it. */
  ghost predicate NamedBy(name: seq<byte>, payload: seq<byte>) {
    forall k :: 0 <= k < |payload| && k < FILE_NAME_LENGTH && payload[k] == 0 && 0 !in payload[..k] ==> name == payload[..k]
  }

  lemma ShownIsNamed(name: seq<byte>, payload: seq<byte>)
    requires |name| == FILE_NAME_LENGTH + 1 && Shows(name, payload)
    ensures NamedBy(Printed(name), payload)
  {
    forall k | 0 <= k < |payload| && k < FILE_NAME_LENGTH && payload[k] == 0 && 0 !in payload[..k]
      ensures Printed(name) == payload[..k]
    {
      forall j | 0 <= j <= k
        ensures name[j] == payload[j]
      {
        assert forall i :: 0 <= i < j ==> payload[..j][i] == payload[..k][i];
      }
      assert forall j :: 0 <= j < k ==> payload[..k][j] == name[j] != 0;
      PrintedIs(name, k);
    }
  }

  /** What is printed ends before the first NUL. */
  lemma {:induction false} PrintedIs(bs: seq<byte>, k: nat)
    requires k < |bs| && bs[k] == 0 && forall j :: 0 <= j < k ==> bs[j] != 0
    ensures Printed(bs) == bs[..k]
    decreases k
  {
    if k > 0 {
      PrintedIs(bs[1..], k - 1);
    }
  }

  lemma PrintedMore(bs: seq<byte>, i: nat)
    requires i < |bs| && bs[i] != 0
    ensures Printed(bs[i..]) == [bs[i]] + Printed(bs[i + 1..])
  {
    assert bs[i..][1..] == bs[i + 1..];
  }

  lemma Regrouped(a: seq<byte>, b: byte, c: seq<byte>)
    ensures a + ([b] + c) == a + [b] + c
  {
  }

  lemma PrintedEnds(bs: seq<byte>, i: nat)
    requires i <= |bs| && (i < |bs| ==> bs[i] == 0)
    ensures Printed(bs[i..]) == [] && bs[0..] == bs
  {
  }

  /** What `SerialDownload` tells the user. */
  datatype Report = Success(name: seq<byte>, size: int) | TooLarge | NotVerified | UserAborted | NotReceived

  /** Whether a report is right, from what happened in the session. A negative announced size that an empty
      filename packet returns is taken for an error code. */
  ghost predicate Right(r: Report, t: State, h: History) {
    match r
    case Success(name, v) =>
      && h.closings == 1 && v == t.size > 0 && h.taken != [] && h.base.size == v && NamedBy(name, h.taken[0].payload)
    case TooLarge => t.size >= FLASH_SIZE || (h.closings == 1 && t.size == -1)
    case NotVerified => h.broken != [] || (h.closings == 1 && t.size == -2)
    case UserAborted => h.aborts == 1 || (h.closings == 1 && t.size == -3)
    case NotReceived =>
      h.cancels == 1 || h.streak > MAX_ERRORS || (h.closings == 1 && (t.size == 0 || t.size < -3))
  }

  function Reported(name: seq<byte>, v: int): Report {
    if v > 0 then Success(Printed(name), v)
    else if v == -1 then TooLarge
    else if v == -2 then NotVerified
    else if v == -3 then UserAborted
    else NotReceived
  }

  lemma ReportedRight(hw: Hardware, s: State, es: seq<Event>, v: int)
    requires Fresh(s) && AllGenuine(es) && Exec(hw, s, es).result == Some(v)
    ensures Right(Reported(Exec(hw, s, es).name, v), Exec(hw, s, es), Log(hw, s, es))
  {
    hide Exec, Log, Balanced, Budgeted, Ordered, Shows, NamedBy, Printed;
    BooksHold(hw, s, es);
    if v > 0 {
      Positive(hw, s, es, v);
      TitledHolds(hw, s, es);
      ImageHolds(hw, s, es);
      ShownIsNamed(Exec(hw, s, es).name, Log(hw, s, es).taken[0].payload);
    }
  }

  /** `SerialPutString`: what it sends of an array that holds a NUL-terminated text. */
  method PutString(text: array<byte>) returns (sent: seq<byte>)
    ensures sent == Printed(text[..])
  {
    hide Printed;
    ghost var all := text[..];
    sent := [];
    var i := 0;
    assert all[0..] == all;
    while i < text.Length && text[i] != 0
      invariant 0 <= i <= text.Length && Printed(all) == sent + Printed(all[i..])
    {
      PrintedMore(all, i);
      Regrouped(sent, all[i], Printed(all[i + 1..]));
      sent, i := sent + [text[i]], i + 1;
    }
    PrintedEnds(all, i);
  }

  /** `SerialDownload` without its texts, observed for at most `rounds` receptions. On any line its report is
      right; a success of tame sizes has the file in flash as far as it came. */
  method SerialDownload(y: R.Ymodem, rounds: nat) returns (r: Option<Report>, ghost t: State, ghost h: History)
    requires y.Valid()
    modifies y, y.fileName, y.fileSize, y.tab1024, y.packetData
    ensures t == y.View(t.result) && (r.Some? <==> t.result.Some?)
    ensures var s, es := R.Ymodem.Opened(old(y.View(None))), Events(y.line, old(y.pos), old(y.packetData[..]), rounds);
            AllGenuine(es) && t == Exec(y.hw, s, es) && h == Log(y.hw, s, es)
    ensures r.Some? ==> Right(r.value, t, h)
    ensures y.flash == t.flash && y.ops == t.ops && y.fileName[..] == t.name
    ensures h.sizes == [] ==> y.flash == old(y.flash) && y.flashComplete == old(y.flashComplete)
    ensures h.sizes == [] && t.result != Some(-1) ==> y.fileName[..] == old(y.fileName[..]) && y.fileSize[..] == old(y.fileSize[..])
    ensures |h.sizes| == 1 && 0 <= h.sizes[0] ==> ElsewhereSame(old(y.flash), y.flash, h.sizes[0])
    ensures forall a :: a in old(y.flash) && J.Spared(y.ops, 0, a) ==> a in y.flash && y.flash[a] == old(y.flash)[a]
    ensures r.Some? && r.value.Success? ==> r.value.name == Printed(y.fileName[..])
    ensures r.Some? && r.value.Success? && AllTame(h.sizes) ==>
              Lies(t, h) && (APPLICATION_ADDRESS + r.value.size <= t.dest <==> Room(h.base.dest, r.value.size) <= |Content(h)|)
  {
    hide Exec, Log, Run, Right, Lies, Content, Tame, Printed, ElsewhereSame, J.Spared;
    ghost var s, p, buf := R.Ymodem.Opened(y.View(None)), y.pos, y.packetData[..];
    ghost var es := Events(y.line, p, buf, rounds);
    RunIsExec(y.hw, y.line, Position(s, buf, p), rounds);
    var size;
    size, h := y.YmodemReceive(rounds);
    t := Exec(y.hw, s, es);
    r := None;
    if size.Some? {
      ReportedRight(y.hw, s, es, size.value);
      var name := [];
      if size.value > 0 {
        name := PutString(y.fileName);
      }
      r := Some(if size.value > 0 then Success(name, size.value) else Reported([], size.value));
      if size.value > 0 && AllTame(h.sizes) {
        Returned(y.hw, s, es, size.value);
      }
    }
  }
}
