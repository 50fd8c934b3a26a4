/** What every exchange keeps, over every link trace. */
module UdsExchangeLaws {
  import opened Common
  import opened UdsExchange

  // ---- Which reply decides ---------------------------------------------------------------

  /** A receive that ends the exchange: malformed, or a final reply of the requested service. */
  predicate Decisive(req: Request, o: Outcome) {
    o.reply.Some?
    && var r := o.reply.value;
       !r.valid || (r.service == req.service && (r.positive || r.code != 0x78))
  }

  /** "Response pending" from the requested service. */
  predicate Pending(req: Request, o: Outcome) {
    o.reply.Some?
    && var r := o.reply.value;
       r.valid && r.service == req.service && !r.positive && r.code == 0x78
  }

  function Ruled(r: Reply): Verdict {
    if r.valid then Answer(r) else InvalidResponse
  }

  predicate Short(tr: Trace, req: Request, n: nat) {
    tr.delivery(n).accepted < |req.payload|
  }

  lemma {:induction false} WindowReads(tr: Trace, req: Request, s: LinkState, start: real, timeout: real, last: Option<Reply>)
    ensures var w := Window(tr, req, s, start, timeout, last);
            var n := w.link.received;
            && w.link.sent == s.sent && s.received <= n
            && (AfterClock(tr, s).now - start <= timeout ==> s.received < n)
            && (forall k :: s.received <= k < n - 1 ==> !Decisive(req, tr.At(k)) && tr.At(k).reply.Some?)
            && (w.Decided? ==> s.received < n && Decisive(req, tr.At(n - 1))
                               && w.verdict == Ruled(tr.At(n - 1).reply.value))
            && (w.Closed? && s.received < n ==>
                  && !Decisive(req, tr.At(n - 1))
                  && w.last == if Pending(req, tr.At(n - 1)) then tr.At(n - 1).reply else None)
            && (w.Closed? && s.received == n ==> w.last == last)
    decreases |tr.inbox| - s.received
  {
    var t := AfterClock(tr, s);
    var u := AfterReceive(tr, t);
    var o := tr.At(s.received);
    if t.now - start <= timeout && o.reply.Some? && !Decisive(req, o) {
      if IsPending(o.reply.value) && o.reply.value.service == req.service {
        WindowReads(tr, req, u, u.now, PENDING_TIMEOUT, o.reply);
      } else {
        WindowReads(tr, req, u, start, timeout, None);
      }
    }
  }

  /**
   The verdict a run from `s` to `end` deserves, read off the trace alone: the
   last receive if it is decisive, a short send, or what an undecided run leaves.
   */
  function Ruling(tr: Trace, req: Request, s: LinkState, end: LinkState, last: Option<Reply>): Verdict {
    if s.received < end.received && Decisive(req, tr.At(end.received - 1)) then
      Ruled(tr.At(end.received - 1).reply.value)
    else if s.sent < end.sent && Short(tr, req, end.sent - 1) then NotSent
    else if s.received < end.received then
      if Pending(req, tr.At(end.received - 1)) then Answer(tr.At(end.received - 1).reply.value) else NoResponse
    else if last.Some? then Answer(last.value) else NoResponse
  }

  /** Only the last receive may be decisive and only the last send short; an undecided run uses every attempt. */
  ghost predicate RunsToVerdict(tr: Trace, req: Request, s: LinkState, end: LinkState, attempts: nat) {
    && s.received <= end.received && s.sent <= end.sent <= s.sent + attempts
    && (forall k :: s.received <= k < end.received - 1 ==> !Decisive(req, tr.At(k)))
    && (forall n :: s.sent <= n < end.sent - 1 ==> !Short(tr, req, n))
    && (end.sent < s.sent + attempts ==>
          || (s.received < end.received && Decisive(req, tr.At(end.received - 1)))
          || (s.sent < end.sent && Short(tr, req, end.sent - 1)))
  }

  lemma {:induction false} AttemptsRule(tr: Trace, req: Request, s: LinkState, left: nat, timeout: real, last: Option<Reply>)
    ensures var (end, v) := Attempts(tr, req, s, left, timeout, last);
            RunsToVerdict(tr, req, s, end, left) && v == Ruling(tr, req, s, end, last)
    decreases left
  {
    if left > 0 && !Short(tr, req, s.sent) {
      var t := AfterSend(tr, s);
      var w := Window(tr, req, t, t.now, timeout, last);
      WindowReads(tr, req, t, t.now, timeout, last);
      if w.Closed? {
        AttemptsRule(tr, req, w.link, left - 1, w.timeout, w.last);
      }
    }
  }

  /** Reply soundness: over every trace the exchange ends at the first decisive receive, with that verdict. */
  lemma ExchangeEndsAtFirstDecisiveReply(tr: Trace, req: Request, s: LinkState, attempts: nat, timeout: real)
    ensures var (end, v) := Exchange(tr, req, s, attempts, timeout);
            RunsToVerdict(tr, req, s, end, attempts) && v == Ruling(tr, req, s, end, None)
  {
    AttemptsRule(tr, req, s, attempts, timeout, None);
  }

  /** `_send_and_read_response` hands out only valid, positive replies of the requested service. */
  lemma OnlyPositiveRepliesOfTheService(tr: Trace, req: Request, s: LinkState, attempts: nat, timeout: real)
    ensures var (end, v) := Exchange(tr, req, s, attempts, timeout);
            PositiveOnly(v).Answer? ==>
              && s.received < end.received
              && tr.At(end.received - 1).reply == Some(PositiveOnly(v).reply)
              && PositiveOnly(v).reply.valid && PositiveOnly(v).reply.positive
              && PositiveOnly(v).reply.service == req.service
  {
    ExchangeEndsAtFirstDecisiveReply(tr, req, s, attempts, timeout);
  }

  /**
   `_send_and_read_response` raises NegativeResponse with a code exactly when the last thing received is a negative reply
   of the service with that code; "response pending" counts unless the frame after it was not sent in full.
   */
  lemma NegativeResponseExactlyWhen(tr: Trace, req: Request, s: LinkState, attempts: nat, timeout: real, code: int)
    ensures var (end, v) := Exchange(tr, req, s, attempts, timeout);
            PositiveOnly(v) == NegativeResponse(code) <==>
              && s.received < end.received && tr.At(end.received - 1).reply.Some?
              && var r := tr.At(end.received - 1).reply.value;
                 && r.valid && r.service == req.service && !r.positive && r.code == code
                 && (code == 0x78 ==> !(s.sent < end.sent && Short(tr, req, end.sent - 1)))
  {
    ExchangeEndsAtFirstDecisiveReply(tr, req, s, attempts, timeout);
  }

  /** NoResponse is raised only after every attempt was sent in full, with nothing usable received last. */
  lemma NoResponseUsesEveryAttempt(tr: Trace, req: Request, s: LinkState, attempts: nat, timeout: real)
    ensures var (end, v) := Exchange(tr, req, s, attempts, timeout);
            v.NoResponse? <==>
              && end.sent == s.sent + attempts
              && (forall n :: s.sent <= n < end.sent ==> !Short(tr, req, n))
              && (s.received < end.received ==>
                    !Decisive(req, tr.At(end.received - 1)) && !Pending(req, tr.At(end.received - 1)))
  {
    ExchangeEndsAtFirstDecisiveReply(tr, req, s, attempts, timeout);
  }

  // ---- A pending reply as the result ------------------------------------------------------

  lemma {:induction false} PendingWindow(tr: Trace, req: Request, s: LinkState, start: real, timeout: real, last: Option<Reply>)
    requires last.Some? ==> start == s.now && timeout == PENDING_TIMEOUT
    ensures var w := Window(tr, req, s, start, timeout, last);
            w.Closed? && w.last.Some? ==>
              w.timeout == PENDING_TIMEOUT && tr.lag(s.sent, w.link.received) > PENDING_TIMEOUT
    decreases |tr.inbox| - s.received
  {
    var t := AfterClock(tr, s);
    var u := AfterReceive(tr, t);
    var o := tr.At(s.received);
    if t.now - start <= timeout && o.reply.Some? && !Decisive(req, o) {
      if IsPending(o.reply.value) && o.reply.value.service == req.service {
        PendingWindow(tr, req, u, u.now, PENDING_TIMEOUT, o.reply);
      } else {
        PendingWindow(tr, req, u, start, timeout, None);
      }
    }
  }

  lemma {:induction false} PendingAttempts(tr: Trace, req: Request, s: LinkState, left: nat, timeout: real, last: Option<Reply>)
    requires last.Some? ==> timeout == PENDING_TIMEOUT && tr.lag(s.sent, s.received) > PENDING_TIMEOUT
    ensures var (end, v) := Attempts(tr, req, s, left, timeout, last);
            v.Answer? && !(s.received < end.received && Decisive(req, tr.At(end.received - 1))) ==>
              tr.lag(end.sent, end.received) > PENDING_TIMEOUT
    decreases left
  {
    if left > 0 && !Short(tr, req, s.sent) {
      var t := AfterSend(tr, s);
      var w := Window(tr, req, t, t.now, timeout, last);
      WindowReads(tr, req, t, t.now, timeout, last);
      PendingWindow(tr, req, t, t.now, timeout, last);
      if w.Closed? {
        AttemptsRule(tr, req, w.link, left - 1, w.timeout, w.last);
        PendingAttempts(tr, req, w.link, left - 1, w.timeout, w.last);
      }
    }
  }

  /**
   A "response pending" comes back as the result only when every attempt is used,
   it is the last thing received, and the clock then jumped past the whole
   pending timeout without a receive being started.
   */
  lemma PendingResultNeedsClockJump(tr: Trace, req: Request, s: LinkState, attempts: nat, timeout: real)
    ensures var (end, v) := Exchange(tr, req, s, attempts, timeout);
            v.Answer? && !v.reply.positive && v.reply.code == 0x78 ==>
              && end.sent == s.sent + attempts
              && s.received < end.received && Pending(req, tr.At(end.received - 1))
              && tr.At(end.received - 1).reply == Some(v.reply)
              && tr.lag(end.sent, end.received) > 60.0
  {
    ExchangeEndsAtFirstDecisiveReply(tr, req, s, attempts, timeout);
    PendingAttempts(tr, req, s, attempts, timeout, None);
  }

  // ---- Time ------------------------------------------------------------------------------------

  /** Time spent receiving, over the receives `from` up to `end`. */
  function ReceiveTime(tr: Trace, from: nat, end: nat): real
    requires from <= end
    decreases end - from
  {
    if from == end then 0.0 else tr.At(from).duration + ReceiveTime(tr, from + 1, end)
  }

  function PendingCount(tr: Trace, req: Request, from: nat, end: nat): nat
    requires from <= end
    decreases end - from
  {
    if from == end then 0
    else (if Pending(req, tr.At(from)) then 1 else 0) + PendingCount(tr, req, from + 1, end)
  }

  /** The clock never runs backwards and every receive of the run takes between `tick` and `longest`. */
  ghost predicate Punctual(tr: Trace, from: nat, end: nat, tick: real, longest: real) {
    && (forall a, b :: tr.lag(a, b) >= 0.0)
    && (forall k :: from <= k < end ==> tick <= tr.At(k).duration <= longest)
  }

  /** `n` windows' worth of `w`. */
  function Windows(n: nat, w: real): real {
    if n == 0 then 0.0 else w + Windows(n - 1, w)
  }

  lemma {:induction false} WindowsSum(m: nat, n: nat, w: real)
    ensures Windows(m + n, w) == Windows(m, w) + Windows(n, w)
  {
    if m > 0 {
      WindowsSum(m - 1, n, w);
    }
  }

  lemma {:induction false} WindowsIsProduct(n: nat, w: real)
    ensures Windows(n, w) == n as real * w
  {
    if n > 0 {
      WindowsIsProduct(n - 1, w);
      assert n as real * w == (n - 1) as real * w + w;
    }
  }

  lemma {:induction false} ReceiveTimeSplit(tr: Trace, req: Request, a: nat, b: nat, c: nat)
    requires a <= b <= c
    ensures ReceiveTime(tr, a, c) == ReceiveTime(tr, a, b) + ReceiveTime(tr, b, c)
    ensures PendingCount(tr, req, a, c) == PendingCount(tr, req, a, b) + PendingCount(tr, req, b, c)
    decreases b - a
  {
    if a < b {
      ReceiveTimeSplit(tr, req, a + 1, b, c);
    }
  }

  /** How much receive time, and how many receives of at least `tick`, a window with `elapsed` behind it still allows. */
  function TimeLeft(elapsed: real, m: real): real {
    2.0 * m - elapsed
  }

  function TicksLeft(elapsed: real, m: real, tick: real): real {
    if elapsed <= m then m + tick - elapsed else 0.0
  }

  lemma {:induction false} WindowTime(tr: Trace, req: Request, s: LinkState, start: real, timeout: real, last: Option<Reply>,
                                      m: real, tick: real)
    requires timeout <= m && PENDING_TIMEOUT <= m && 0.0 <= tick
    requires 0.0 <= s.now - start <= 2.0 * m
    requires Punctual(tr, s.received, Window(tr, req, s, start, timeout, last).link.received, tick, m)
    ensures var w := Window(tr, req, s, start, timeout, last);
            var n := w.link.received;
            s.received <= n &&
            var p := PendingCount(tr, req, s.received, n);
            && (w.Closed? ==> w.timeout <= m)
            && ReceiveTime(tr, s.received, n) <= TimeLeft(s.now - start, m) + Windows(p, 2.0 * m)
            && Windows(n - s.received, tick) <= TicksLeft(s.now - start, m, tick) + Windows(p, m + tick)
    decreases |tr.inbox| - s.received
  {
    WindowReads(tr, req, s, start, timeout, last);
    var t := AfterClock(tr, s);
    var u := AfterReceive(tr, t);
    var o := tr.At(s.received);
    var n := Window(tr, req, s, start, timeout, last).link.received;
    assert tr.lag(s.sent, s.received) >= 0.0;
    if t.now - start <= timeout {
      assert tick <= o.duration <= m;
      if o.reply.Some? && !Decisive(req, o) {
        if Pending(req, o) {
          WindowTime(tr, req, u, u.now, PENDING_TIMEOUT, o.reply, m, tick);
        } else {
          WindowTime(tr, req, u, start, timeout, None, m, tick);
        }
      }
    }
  }

  /** The receives `a` up to `b` fit the budget of `sends` frames and the pending replies among them. */
  ghost predicate Within(tr: Trace, req: Request, a: nat, b: nat, sends: nat, m: real, tick: real) {
    && a <= b
    && ReceiveTime(tr, a, b) <= Windows(sends + PendingCount(tr, req, a, b), 2.0 * m)
    && Windows(b - a, tick) <= Windows(sends + PendingCount(tr, req, a, b), m + tick)
  }

  lemma WithinCompose(tr: Trace, req: Request, a: nat, b: nat, c: nat, n1: nat, n2: nat, m: real, tick: real)
    requires Within(tr, req, a, b, n1, m, tick) && Within(tr, req, b, c, n2, m, tick)
    ensures Within(tr, req, a, c, n1 + n2, m, tick)
  {
    ReceiveTimeSplit(tr, req, a, b, c);
    var p1, p2 := n1 + PendingCount(tr, req, a, b), n2 + PendingCount(tr, req, b, c);
    WindowsSum(p1, p2, 2.0 * m);
    WindowsSum(p1, p2, m + tick);
    WindowsSum(b - a, c - b, tick);
  }

  lemma NothingWithin(tr: Trace, req: Request, a: nat, sends: nat, m: real, tick: real)
    requires 0.0 <= m && 0.0 <= tick && sends <= 1
    ensures Within(tr, req, a, a, sends, m, tick)
  {
    assert sends == 1 ==> Windows(sends - 1, 2.0 * m) == 0.0 && Windows(sends - 1, m + tick) == 0.0;
  }

  /** The listening after one frame fits the budget of that frame. */
  lemma WindowIsWithin(tr: Trace, req: Request, t: LinkState, timeout: real, last: Option<Reply>, m: real, tick: real)
    requires timeout <= m && PENDING_TIMEOUT <= m && 0.0 <= tick
    requires Punctual(tr, t.received, Window(tr, req, t, t.now, timeout, last).link.received, tick, m)
    ensures var w := Window(tr, req, t, t.now, timeout, last);
            && t.received <= w.link.received && Within(tr, req, t.received, w.link.received, 1, m, tick)
            && (w.Closed? ==> w.timeout <= m)
  {
    hide ReceiveTime, PendingCount, Window, Decisive, Pending;
    WindowTime(tr, req, t, t.now, timeout, last, m, tick);
  }

  lemma {:induction false} AttemptsTime(tr: Trace, req: Request, s: LinkState, left: nat, timeout: real, last: Option<Reply>,
                                        m: real, tick: real)
    requires timeout <= m && PENDING_TIMEOUT <= m && 0.0 <= tick
    requires Punctual(tr, s.received, Attempts(tr, req, s, left, timeout, last).0.received, tick, m)
    ensures var end := Attempts(tr, req, s, left, timeout, last).0;
            s.sent <= end.sent && Within(tr, req, s.received, end.received, end.sent - s.sent, m, tick)
    decreases left
  {
    hide Within, Window, Decisive, Pending;
    var end := Attempts(tr, req, s, left, timeout, last).0;
    if left == 0 || Short(tr, req, s.sent) {
      NothingWithin(tr, req, s.received, if left == 0 then 0 else 1, m, tick);
    } else {
      var t := AfterSend(tr, s);
      var w := Window(tr, req, t, t.now, timeout, last);
      WindowReads(tr, req, t, t.now, timeout, last);
      if w.Closed? {
        AttemptsRule(tr, req, w.link, left - 1, w.timeout, w.last);
        WindowIsWithin(tr, req, t, timeout, last, m, tick);
        AttemptsTime(tr, req, w.link, left - 1, w.timeout, w.last, m, tick);
        WithinCompose(tr, req, s.received, w.link.received, end.received, 1, end.sent - t.sent, m, tick);
      } else {
        WindowIsWithin(tr, req, t, timeout, last, m, tick);
      }
    }
  }

  lemma WithinMeans(tr: Trace, req: Request, a: nat, b: nat, sends: nat, m: real, tick: real)
    requires Within(tr, req, a, b, sends, m, tick)
    ensures ReceiveTime(tr, a, b) <= (sends + PendingCount(tr, req, a, b)) as real * (2.0 * m)
    ensures (b - a) as real * tick <= (sends + PendingCount(tr, req, a, b)) as real * (m + tick)
  {
    var windows := sends + PendingCount(tr, req, a, b);
    WindowsIsProduct(windows, 2.0 * m);
    WindowsIsProduct(windows, m + tick);
    WindowsIsProduct(b - a, tick);
  }

  function Max(a: real, b: real): real {
    if a < b then b else a
  }

  /**
   Time bound: receiving takes at most two timeouts per frame sent and per
   pending reply; and if every receive takes at least `tick`, the number of
   receives is bounded too, whatever else the link delivers.
   */
  lemma ExchangeTimeBound(tr: Trace, req: Request, s: LinkState, attempts: nat, timeout: real, tick: real)
    requires 0.0 <= tick
    requires Punctual(tr, s.received, Exchange(tr, req, s, attempts, timeout).0.received, tick, Max(timeout, 60.0))
    ensures var end := Exchange(tr, req, s, attempts, timeout).0;
            var m := Max(timeout, 60.0);
            s.received <= end.received && s.sent <= end.sent <= s.sent + attempts &&
            var windows := end.sent - s.sent + PendingCount(tr, req, s.received, end.received);
            && ReceiveTime(tr, s.received, end.received) <= windows as real * (2.0 * m)
            && (end.received - s.received) as real * tick <= windows as real * (m + tick)
  {
    hide Within, Windows, ReceiveTime, PendingCount, Attempts;
    ExchangeEndsAtFirstDecisiveReply(tr, req, s, attempts, timeout);
    var end, m := Exchange(tr, req, s, attempts, timeout).0, Max(timeout, 60.0);
    AttemptsTime(tr, req, s, attempts, timeout, None, m, tick);
    WithinMeans(tr, req, s.received, end.received, end.sent - s.sent, m, tick);
  }
}
