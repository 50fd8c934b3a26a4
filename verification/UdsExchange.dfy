/**
 One UDS request/reply exchange as a function of the link: its deliveries,
 replies and clock are an arbitrary trace. Times are in seconds, as real numbers.
 */
module UdsExchange {
  import opened Common

  const PENDING_TIMEOUT: real := 60.0
  const RESPONSE_PENDING := 0x78

  /** A parsed reply: `service` is the response id of its service. */
  datatype Reply = Reply(valid: bool, service: int, positive: bool, code: int, data: bytes)

  datatype Request = Request(service: int, payload: bytes)

  /** One receive: how long it took and what it brought; None is a receive that came back empty. */
  datatype Outcome = Outcome(duration: real, reply: Option<Reply>)

  /** One send: how long it took and how many bytes the link took. */
  datatype Delivery = Delivery(duration: real, accepted: int)

  /**
   Everything the link will do: the replies in order (silence after the last),
   what becomes of the n-th frame sent, and the time that passes before the
   clock is read after `sent` sends and `received` receives.
   */
  datatype Trace = Trace(inbox: seq<Outcome>, delivery: nat -> Delivery, lag: (nat, nat) -> real)
  {
    function At(k: nat): Outcome {
      if k < |inbox| then inbox[k] else Outcome(0.0, None)
    }
  }

  datatype LinkState = LinkState(sent: nat, received: nat, now: real)

  datatype Verdict =
    | Answer(reply: Reply)
    | NoResponse
    | InvalidResponse
    | NotSent
    | NegativeResponse(code: int)

  predicate IsPending(r: Reply) {
    !r.positive && r.code == RESPONSE_PENDING
  }

  // ---- The exchange as a function of the trace ------------------------------------------

  function AfterSend(tr: Trace, s: LinkState): LinkState {
    LinkState(s.sent + 1, s.received, s.now + tr.delivery(s.sent).duration)
  }

  function AfterClock(tr: Trace, s: LinkState): LinkState {
    s.(now := s.now + tr.lag(s.sent, s.received))
  }

  function AfterReceive(tr: Trace, s: LinkState): LinkState {
    LinkState(s.sent, s.received + 1, s.now + tr.At(s.received).duration)
  }

  /** How listening after one send ends: with the exchange decided, or with time or replies run out. */
  datatype WindowEnd =
    | Decided(link: LinkState, verdict: Verdict)
    | Closed(link: LinkState, timeout: real, last: Option<Reply>)

  function Window(tr: Trace, req: Request, s: LinkState, start: real, timeout: real, last: Option<Reply>): (w: WindowEnd)
    decreases |tr.inbox| - s.received
  {
    var t := AfterClock(tr, s);
    if t.now - start > timeout then Closed(t, timeout, last)
    else
      var u := AfterReceive(tr, t);
      match tr.At(s.received).reply
      case None => Closed(u, timeout, None)
      case Some(r) =>
        if !r.valid then Decided(u, InvalidResponse)
        else if r.service != req.service then Window(tr, req, u, start, timeout, None)
        else if IsPending(r) then Window(tr, req, u, u.now, PENDING_TIMEOUT, Some(r))
        else Decided(u, Answer(r))
  }

  function Attempts(tr: Trace, req: Request, s: LinkState, left: nat, timeout: real, last: Option<Reply>)
    : (r: (LinkState, Verdict))
    decreases left, 1
  {
    if left == 0 then (s, if last.None? then NoResponse else Answer(last.value))
    else
      var t := AfterSend(tr, s);
      if tr.delivery(s.sent).accepted < |req.payload| then (t, NotSent)
      else Resume(tr, req, Window(tr, req, t, t.now, timeout, last), left)
  }

  function Resume(tr: Trace, req: Request, w: WindowEnd, left: nat): (r: (LinkState, Verdict))
    requires left > 0
    decreases left, 0
  {
    match w
    case Decided(u, v) => (u, v)
    case Closed(u, timeout, last) => Attempts(tr, req, u, left - 1, timeout, last)
  }

  function Exchange(tr: Trace, req: Request, s: LinkState, attempts: nat, timeout: real): (r: (LinkState, Verdict)) {
    Attempts(tr, req, s, attempts, timeout, None)
  }

  /** `_send_and_read_response`: a negative reply becomes an exception. */
  function PositiveOnly(v: Verdict): (r: Verdict) {
    if v.Answer? && !v.reply.positive then NegativeResponse(v.reply.code) else v
  }
}
