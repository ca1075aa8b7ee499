/** A line that goes silent once a packet has been taken. */
module Silence {
  import opened Machine
  import opened Framing
  import opened Flash
  import opened Session

  /** No byte from poll `from` to poll `to - 1`. */
  ghost predicate Quiet(line: Line, from: nat, to: nat) {
    forall k :: from <= k < to ==> line(k) == Idle
  }

  /** `n` requests to go on. */
  function Requests(n: nat): seq<byte> { seq(n, _ => CRC16) }

  lemma QuietRound(hw: Hardware, line: Line, p: Position)
    requires Ready(p) && Quiet(line, p.pos, p.pos + NAK_TIMEOUT)
    ensures Round(hw, line, p) == Position(Fault(p.s), p.buf, p.pos + NAK_TIMEOUT)
  {
  }

  /** Silence ends a session that has taken a packet: after exactly MAX_ERRORS + 1 - errors receptions
      of NAK_TIMEOUT polls each it returns 0, having sent one request per reception but the last, and
      two CA; not one reception earlier. Neither flash nor the variables of the file change. */
  lemma {:induction false} SilenceEnds(hw: Hardware, line: Line, p: Position)
    requires Ready(p) && p.s.result.None? && p.s.begun && p.s.errors <= MAX_ERRORS
    requires Quiet(line, p.pos, p.pos + (MAX_ERRORS + 1 - p.s.errors) * NAK_TIMEOUT)
    ensures var n := MAX_ERRORS + 1 - p.s.errors;
            && Run(hw, line, p, n)
               == Position(p.s.(errors := MAX_ERRORS + 1, result := Some(0),
                                replies := p.s.replies + Requests(n - 1) + [CA, CA]),
                           p.buf, p.pos + n * NAK_TIMEOUT)
            && (forall k :: 0 <= k < n ==> Run(hw, line, p, k).s.result.None?)
    decreases MAX_ERRORS - p.s.errors
  {
    QuietRound(hw, line, p);
    var n := MAX_ERRORS + 1 - p.s.errors;
    var q := Round(hw, line, p);
    hide Round;
    if p.s.errors < MAX_ERRORS {
      SilenceEnds(hw, line, q);
      assert p.s.replies + [CRC16] + Requests(n - 2) + [CA, CA] == p.s.replies + Requests(n - 1) + [CA, CA];
      forall k | 0 <= k < n
        ensures Run(hw, line, p, k).s.result.None?
      {
        assert k > 0 ==> Run(hw, line, p, k) == Run(hw, line, q, k - 1);
      }
    } else {
      assert p.s.replies + Requests(0) == p.s.replies;
      assert Run(hw, line, q, 0) == q;
    }
  }

  /** Before any packet is taken, silence never ends the session: one request per reception. */
  lemma {:induction false} SilenceBeforeSession(hw: Hardware, line: Line, p: Position, n: nat)
    requires Ready(p) && p.s.result.None? && !p.s.begun && p.s.errors == 0
    requires Quiet(line, p.pos, p.pos + n * NAK_TIMEOUT)
    ensures Run(hw, line, p, n) == Position(p.s.(replies := p.s.replies + Requests(n)), p.buf, p.pos + n * NAK_TIMEOUT)
    decreases n
  {
    if n == 0 {
      assert p.s.replies + Requests(0) == p.s.replies;
    } else {
      QuietRound(hw, line, p);
      var q := Round(hw, line, p);
      hide Round;
      SilenceBeforeSession(hw, line, q, n - 1);
      assert p.s.replies + [CRC16] + Requests(n - 1) == p.s.replies + Requests(n);
    }
  }
}
