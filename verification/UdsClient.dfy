/** The UDS client: methods that drive the link, each tied to its function of the trace. */
module UdsClient {
  import opened Common
  import opened UdsExchange
  import opened UdsSession

  /** The data link layer. */
  class DataLink {
    const tr: Trace
    var sent: nat
    var received: nat
    var now: real

    constructor (tr: Trace)
      ensures this.tr == tr && State() == LinkState(0, 0, 0.0)
    {
      this.tr := tr;
      sent, received, now := 0, 0, 0.0;
    }

    function State(): LinkState
      reads this
    {
      LinkState(sent, received, now)
    }

    method Send(payload: bytes) returns (accepted: int)
      modifies this
      ensures State() == AfterSend(tr, old(State())) && accepted == tr.delivery(old(sent)).accepted
    {
      var d := tr.delivery(sent);
      sent, now, accepted := sent + 1, now + d.duration, d.accepted;
    }

    method ReadClock() returns (time: real)
      modifies this
      ensures State() == AfterClock(tr, old(State())) && time == now
    {
      now := now + tr.lag(sent, received);
      time := now;
    }

    method Receive() returns (reply: Option<Reply>)
      modifies this
      ensures State() == AfterReceive(tr, old(State())) && reply == tr.At(old(received)).reply
    {
      var o := tr.At(received);
      received, now, reply := received + 1, now + o.duration, o.reply;
    }
  }

  class UdsUtils {
    const link: DataLink
    const lib: Library
    const attempts: nat
    ghost var requested: seq<int>  // the session changes asked for so far

    constructor (link: DataLink, lib: Library, attempts: nat)
      ensures this.link == link && this.lib == lib && this.attempts == attempts && requested == []
    {
      this.link, this.lib, this.attempts, requested := link, lib, attempts, [];
    }

    method SendAndReadRawResponse(req: Request, timeout: real) returns (v: Verdict)
      modifies link
      ensures (link.State(), v) == Exchange(link.tr, req, old(link.State()), attempts, timeout)
    {
      var limit, raw := timeout, None;
      for i := 0 to attempts
        invariant Attempts(link.tr, req, link.State(), attempts - i, limit, raw)
               == Exchange(link.tr, req, old(link.State()), attempts, timeout)
      {
        var sent := link.Send(req.payload);
        if sent < |req.payload| {
          return NotSent;
        }
        var start := link.now;
        while true
          invariant Resume(link.tr, req, Window(link.tr, req, link.State(), start, limit, raw), attempts - i)
                 == Exchange(link.tr, req, old(link.State()), attempts, timeout)
          decreases |link.tr.inbox| - link.received
        {
          var now := link.ReadClock();
          if now - start > limit {
            break;
          }
          raw := link.Receive();
          if raw.None? {
            break;
          }
          var response := raw.value;
          if !response.valid {
            return InvalidResponse;
          }
          if response.service != req.service {
            raw := None;
          } else if !response.positive && response.code == RESPONSE_PENDING {
            start := link.now;
            limit := PENDING_TIMEOUT;
          } else {
            return Answer(response);
          }
        }
      }
      if raw.None? {
        return NoResponse;
      }
      return Answer(raw.value);
    }

    method SendAndReadResponse(req: Request, timeout: real) returns (v: Verdict)
      modifies link
      ensures var (s, raw) := Exchange(link.tr, req, old(link.State()), attempts, timeout);
              link.State() == s && v == PositiveOnly(raw)
    {
      v := SendAndReadRawResponse(req, timeout);
      if v.Answer? && !v.reply.positive {
        v := NegativeResponse(v.reply.code);
      }
    }

    /** `session`; None stands for any exception. */
    method Session(id: int, timeout: real) returns (echo: Option<int>)
      modifies link, this`requested
      ensures (link.State(), echo) == RunSession(lib, link.tr, attempts, timeout, old(link.State()), id)
      ensures requested == old(requested) + [id]
      ensures forall e :: echo == Some(e) <==> Echoed(lib, link.tr, old(link.State()), link.State(), id, e)
    {
      SessionEchoesExactlyWhen(lib, link.tr, attempts, timeout, link.State(), id);
      requested := requested + [id];
      var request := lib.sessionRequest(id);
      if request.None? {
        return None;
      }
      var response := SendAndReadResponse(request.value, timeout);
      if !response.Answer? {
        return None;
      }
      echo := lib.sessionEcho(response.reply);
    }

    /** `security_access`; None stands for any exception. */
    method SecurityAccess(algorithm: Algorithm, timeout: real) returns (granted: Option<bool>)
      modifies link
      ensures (link.State(), granted) == RunSecurityAccess(lib, link.tr, attempts, timeout, old(link.State()), algorithm)
      ensures granted == Some(true) <==>
                Grants(lib, link.tr, old(link.State()),
                       Asked(link.tr, attempts, timeout, old(link.State()), lib.seedRequest(algorithm.seedLevel)),
                       link.State(), algorithm)
    {
      SecurityAccessGrantsExactlyWhen(lib, link.tr, attempts, timeout, link.State(), algorithm);
      var request := lib.seedRequest(algorithm.seedLevel);
      if request.None? {
        return None;
      }
      var response := SendAndReadResponse(request.value, timeout);
      if !response.Answer? {
        return None;
      }
      var seed := lib.seed(response.reply);
      if seed.None? {
        return None;
      }
      if AllZero(seed.value) {
        return Some(true);
      }
      var key := algorithm.key(seed.value);
      if key.None? {
        return None;
      }
      request := lib.keyRequest(algorithm.keyLevel, key.value);
      if request.None? {
        return None;
      }
      response := SendAndReadResponse(request.value, timeout);
      if !response.Answer? {
        return None;
      }
      var level := lib.keyEcho(response.reply);
      return if level.None? then None else Some(level.value == algorithm.keyLevel);
    }

    method TransitToSession(route: seq<SessionAccess>, timeout: real) returns (ok: bool)
      modifies link, this`requested
      ensures var run := Transit(lib, link.tr, attempts, timeout, old(link.State()), route);
              link.State() == run.link && ok == run.ok && requested == old(requested) + run.requested
    {
      hide RunSecurityAccess, Grants, Exchange;
      ghost var total := Transit(lib, link.tr, attempts, timeout, link.State(), route);
      ghost var before := requested;
      for i := 0 to |route|
        invariant var rest := Transit(lib, link.tr, attempts, timeout, link.State(), route[i..]);
                  && rest.link == total.link && rest.ok == total.ok
                  && requested + rest.requested == before + total.requested
      {
        var entry := route[i];
        assert route[i..][0] == entry && route[i..][1..] == route[i + 1..];
        var echo := Session(entry.id, timeout);
        if echo.None? {
          return false;
        }
        if entry.algorithm.Some? {
          var _ := SecurityAccess(entry.algorithm.value, timeout);
        }
      }
      return true;
    }
  }
}
