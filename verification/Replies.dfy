/** What the receiver sends, byte by byte and in order. */
module Replies {
  import opened Machine
  import opened Framing
  import opened Flash
  import opened Session
  import opened Ledger

  /** The answer to a reception that took the session from `s` to `t`. */
  function Answer(s: State, e: Event, t: State): seq<byte>
    requires Genuine(e)
  {
    match e.packet
    case Failed => if t.result.Some? then [CA, CA] else [CRC16]
    case UserAbort => [CA, CA]
    case SenderAbort => [ACK]
    case EndOfFile => [ACK]
    case Data(_) =>
      if !InSequence(s, e) then [NAK]
      else if IsClosing(s, e) then [ACK]
      else if t.result.Some? then [CA, CA]
      else if s.packets == 0 then [ACK, CRC16]
      else [ACK]
  }

  /** The answers to the receptions of a session, up to the one that ended it. */
  ghost function Answers(hw: Hardware, s: State, es: seq<Event>): seq<byte>
    requires Shaped(s) && AllGenuine(es)
    decreases |es|
  {
    if es == [] then []
    else
      var front := es[..|es| - 1];
      var t := Exec(hw, s, front);
      Answers(hw, s, front) + if t.result.Some? then [] else Answer(t, es[|es| - 1], Exec(hw, s, es))
  }

  lemma AnswerSent(hw: Hardware, s: State, e: Event)
    requires Shaped(s) && s.result.None? && Genuine(e)
    ensures Step(hw, s, e).replies == s.replies + Answer(s, e, Step(hw, s, e))
  {
    if e.packet.Data? {
      DataStep(hw, s, e);
      hide Step;
    } else {
      hide AcceptHeader, AcceptData;
    }
  }

  /** Everything sent in a session are these answers, in the order of the receptions. */
  lemma {:induction false} RepliesAre(hw: Hardware, s: State, es: seq<Event>)
    requires Shaped(s) && AllGenuine(es)
    ensures Exec(hw, s, es).replies == s.replies + Answers(hw, s, es)
    decreases |es|
  {
    hide Step, Answer;
    if es != [] {
      var front := es[..|es| - 1];
      var t := Exec(hw, s, front);
      RepliesAre(hw, s, front);
      if t.result.None? {
        AnswerSent(hw, t, es[|es| - 1]);
      }
    }
  }
}
