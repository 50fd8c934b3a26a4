/** When listening for a reply stops, in closed form over the trace. */
module UdsTiming {
  import opened Common
  import opened UdsExchange
  import opened UdsExchangeLaws

  /** The time once the link, in state `s`, has gone on to `k` receives. */
  function TimeAfter(tr: Trace, s: LinkState, k: nat): real
    decreases k
  {
    if k <= s.received then s.now
    else TimeAfter(tr, s, k - 1) + tr.lag(s.sent, k - 1) + tr.At(k - 1).duration
  }

  /** The moment the wait for receive `k` counts from: the end of the last pending reply, or `start`. */
  function Restart(tr: Trace, req: Request, s: LinkState, start: real, k: nat): real
    decreases k
  {
    if k <= s.received then start
    else if Pending(req, tr.At(k - 1)) then TimeAfter(tr, s, k)
    else Restart(tr, req, s, start, k - 1)
  }

  /** The timeout in force before receive `k`: a minute as soon as one pending reply was seen since receive `first`. */
  function Limit(tr: Trace, req: Request, first: nat, timeout: real, k: nat): real {
    if exists i :: first <= i < k && Pending(req, tr.At(i)) then 60.0 else timeout
  }

  /** The receive before `k` leaves nothing to wait for. */
  predicate Stops(tr: Trace, req: Request, from: nat, k: nat) {
    from < k && (tr.At(k - 1).reply.None? || Decisive(req, tr.At(k - 1)))
  }

  /** The clock, read before receive `k`, is past the limit. */
  predicate Expired(tr: Trace, req: Request, s: LinkState, start: real, first: nat, timeout: real, k: nat) {
    TimeAfter(tr, s, k) + tr.lag(s.sent, k) - Restart(tr, req, s, start, k) > Limit(tr, req, first, timeout, k)
  }

  lemma {:induction false} Shift(tr: Trace, req: Request, s: LinkState, start: real, k: nat)
    requires s.received < k
    ensures var u := AfterReceive(tr, AfterClock(tr, s));
            && TimeAfter(tr, s, k) == TimeAfter(tr, u, k)
            && Restart(tr, req, s, start, k) == Restart(tr, req, u, if Pending(req, tr.At(s.received)) then u.now else start, k)
    decreases k
  {
    if s.received + 1 < k {
      Shift(tr, req, s, start, k - 1);
    }
  }

  lemma LimitStays(tr: Trace, req: Request, first: nat, timeout: real, k: nat)
    requires first <= k
    ensures Limit(tr, req, first, timeout, k + 1) == if Pending(req, tr.At(k)) then 60.0 else Limit(tr, req, first, timeout, k)
  {
    if exists i :: first <= i < k && Pending(req, tr.At(i)) {
      var i :| first <= i < k && Pending(req, tr.At(i));
      assert first <= i < k + 1;
    }
  }

  /** Listening goes on up to exactly the first receive that settles it or the first clock reading past the limit, from `start` on. */
  lemma {:induction false} WindowStopsAtFirstEvent(tr: Trace, req: Request, s: LinkState, start: real, first: nat, timeout: real,
                                                   last: Option<Reply>)
    requires first <= s.received
    ensures var w := Window(tr, req, s, start, Limit(tr, req, first, timeout, s.received), last);
            var n := w.link.received;
            && s.received <= n
            && (Stops(tr, req, s.received, n) || Expired(tr, req, s, start, first, timeout, n))
            && (forall k :: s.received <= k < n ==>
                  !Stops(tr, req, s.received, k) && !Expired(tr, req, s, start, first, timeout, k))
            && w.link.now == TimeAfter(tr, s, n) + (if Stops(tr, req, s.received, n) then 0.0 else tr.lag(s.sent, n))
            && (w.Closed? ==> w.timeout == Limit(tr, req, first, timeout, n))
    decreases |tr.inbox| - s.received
  {
    hide Limit;
    var u := AfterReceive(tr, AfterClock(tr, s));
    var o := tr.At(s.received);
    LimitStays(tr, req, first, timeout, s.received);
    if !Expired(tr, req, s, start, first, timeout, s.received) && o.reply.Some? && !Decisive(req, o) {
      var start', last' := if Pending(req, o) then u.now else start, if Pending(req, o) then o.reply else None;
      WindowStopsAtFirstEvent(tr, req, u, start', first, timeout, last');
      var w := Window(tr, req, u, start', Limit(tr, req, first, timeout, u.received), last');
      assert Window(tr, req, s, start, Limit(tr, req, first, timeout, s.received), last) == w;
      forall k | s.received < k <= w.link.received
        ensures Expired(tr, req, s, start, first, timeout, k) == Expired(tr, req, u, start', first, timeout, k)
        ensures k > u.received ==> Stops(tr, req, s.received, k) == Stops(tr, req, u.received, k)
      {
        Shift(tr, req, s, start, k);
      }
      assert !Stops(tr, req, s.received, u.received);
      Shift(tr, req, s, start, w.link.received);
    }
  }

  // ---- Whole exchanges --------------------------------------------------------------------------

  // `froms[j]` is how many receives were done before frame `j` of the exchange was sent.

  /** The listening after frame `j` ended with a reply that decides. */
  predicate Decided(tr: Trace, req: Request, froms: seq<nat>, j: nat)
    requires j + 1 < |froms|
  {
    froms[j] < froms[j + 1] && Decisive(req, tr.At(froms[j + 1] - 1))
  }

  /** The link before frame `j` is sent: the listening before ended with a receive, or with one more reading of the clock. */
  function Before(tr: Trace, req: Request, s: LinkState, froms: seq<nat>, j: nat): LinkState
    requires j < |froms|
    decreases j, 0
  {
    if j == 0 then s
    else
      var t, n := Sending(tr, req, s, froms, j - 1), froms[j];
      LinkState(s.sent + j, n, TimeAfter(tr, t, n) + if Stops(tr, req, t.received, n) then 0.0 else tr.lag(t.sent, n))
  }

  /** The link when frame `j` has been sent. */
  function Sending(tr: Trace, req: Request, s: LinkState, froms: seq<nat>, j: nat): LinkState
    requires j < |froms|
    decreases j, 1
  {
    var t := Before(tr, req, s, froms, j);
    LinkState(s.sent + j + 1, froms[j], t.now + tr.delivery(s.sent + j).duration)
  }

  /**
   Once frame and link are in state `t`, listening ends at `n` receives: at the first one that settles it, or at
   the first clock reading past the limit, which counts from the frame or the last pending reply since.
   */
  ghost predicate Listens(tr: Trace, req: Request, first: nat, timeout: real, t: LinkState, n: nat) {
    && t.received <= n
    && (Stops(tr, req, t.received, n) || Expired(tr, req, t, t.now, first, timeout, n))
    && (forall k :: t.received <= k < n ==>
          !Stops(tr, req, t.received, k) && !Expired(tr, req, t, t.now, first, timeout, k))
  }

  /** Frame `j` was sent in full and listened after. */
  ghost predicate Heard(tr: Trace, req: Request, s: LinkState, timeout: real, froms: seq<nat>, j: nat)
    requires j + 1 < |froms|
  {
    !Short(tr, req, s.sent + j) && Listens(tr, req, s.received, timeout, Sending(tr, req, s, froms, j), froms[j + 1])
  }

  /** All frames but the one at the last of `froms` were heard, and only the last of them may have decided the exchange. */
  ghost predicate Undecided(tr: Trace, req: Request, s: LinkState, timeout: real, froms: seq<nat>) {
    && froms != [] && froms[0] == s.received
    && (forall j :: 0 <= j < |froms| - 1 ==> Heard(tr, req, s, timeout, froms, j))
    && (forall j :: 0 <= j < |froms| - 2 ==> !Decided(tr, req, froms, j))
  }

  /**
   An exchange from `s` to `end` with this verdict. After each frame the link is listened to as `Listens` says, with
   the caller's timeout up to the first pending reply of the exchange and a minute from then on. The exchange ends with
   the first decisive receive, with the last attempt, or with a frame that was not sent in full.
   */
  ghost predicate Conducted(tr: Trace, req: Request, s: LinkState, attempts: nat, timeout: real, froms: seq<nat>, end: LinkState,
                            v: Verdict)
  {
    && Undecided(tr, req, s, timeout, froms)
    && var n := |froms| - 1;
       && n <= attempts
       && if n > 0 && Decided(tr, req, froms, n - 1) then
            && end == Before(tr, req, s, froms, n)
            && v == var r := tr.At(froms[n] - 1).reply.value; if r.valid then Answer(r) else InvalidResponse
          else if n == attempts then
            && end == Before(tr, req, s, froms, n)
            && v == if s.received < froms[n] && Pending(req, tr.At(froms[n] - 1)) then Answer(tr.At(froms[n] - 1).reply.value)
                    else NoResponse
          else
            Short(tr, req, s.sent + n) && end == Sending(tr, req, s, froms, n) && v == NotSent
  }

  lemma {:induction false} SamePrefix(tr: Trace, req: Request, s: LinkState, a: seq<nat>, b: seq<nat>, j: nat)
    requires j < |a| && j < |b| && a[..j + 1] == b[..j + 1]
    ensures Before(tr, req, s, a, j) == Before(tr, req, s, b, j) && Sending(tr, req, s, a, j) == Sending(tr, req, s, b, j)
  {
    assert a[j] == a[..j + 1][j] && b[j] == b[..j + 1][j];
    if j > 0 {
      assert a[..j] == a[..j + 1][..j] && b[..j] == b[..j + 1][..j];
      SamePrefix(tr, req, s, a, b, j - 1);
    }
  }

  lemma ListenedOn(tr: Trace, req: Request, s: LinkState, timeout: real, froms: seq<nat>, n: nat)
    requires Undecided(tr, req, s, timeout, froms) && !Short(tr, req, s.sent + |froms| - 1)
    requires |froms| > 1 ==> !Decided(tr, req, froms, |froms| - 2)
    requires Listens(tr, req, s.received, timeout, Sending(tr, req, s, froms, |froms| - 1), n)
    ensures Undecided(tr, req, s, timeout, froms + [n])
    ensures Sending(tr, req, s, froms + [n], |froms| - 1) == Sending(tr, req, s, froms, |froms| - 1)
  {
    hide Listens, Decisive;
    var all := froms + [n];
    forall j | 0 <= j < |froms|
      ensures Sending(tr, req, s, all, j) == Sending(tr, req, s, froms, j)
    {
      assert all[..j + 1] == froms[..j + 1];
      SamePrefix(tr, req, s, all, froms, j);
    }
    forall j | 0 <= j < |all| - 1
      ensures Heard(tr, req, s, timeout, all, j)
    {
      assert Sending(tr, req, s, all, j) == Sending(tr, req, s, froms, j);
      assert j < |froms| - 1 ==> Heard(tr, req, s, timeout, froms, j);
    }
    forall j | 0 <= j < |all| - 2
      ensures !Decided(tr, req, all, j)
    {
      assert Decided(tr, req, all, j) == Decided(tr, req, froms, j);
    }
  }

  /** What is left of the last receive, if that was a pending reply. */
  function Kept(tr: Trace, req: Request, first: nat, k: nat): Option<Reply> {
    if first < k && Pending(req, tr.At(k - 1)) then tr.At(k - 1).reply else None
  }

  /** What the loop carries into the listening after the next frame. */
  function Carried(tr: Trace, req: Request, s: LinkState, attempts: nat, timeout: real, froms: seq<nat>): (LinkState, Verdict)
    requires froms != [] && |froms| - 1 <= attempts
  {
    var j := |froms| - 1;
    Attempts(tr, req, Before(tr, req, s, froms, j), attempts - j, Limit(tr, req, s.received, timeout, froms[j]),
             Kept(tr, req, s.received, froms[j]))
  }

  /** One frame more: it was not sent in full, or what came of listening decides, or the loop goes on. */
  lemma OneFrame(tr: Trace, req: Request, s: LinkState, attempts: nat, timeout: real, froms: seq<nat>) returns (all: seq<nat>)
    requires froms != [] && froms[0] == s.received && |froms| - 1 < attempts
    requires s.received <= froms[|froms| - 1] && !Short(tr, req, s.sent + |froms| - 1)
    ensures |all| == |froms| + 1 && all[..|froms|] == froms && s.received <= all[|froms|]
    ensures Listens(tr, req, s.received, timeout, Sending(tr, req, s, froms, |froms| - 1), all[|froms|])
    ensures Carried(tr, req, s, attempts, timeout, froms)
         == if Decided(tr, req, all, |froms| - 1) then
              (Before(tr, req, s, all, |froms|), Ruled(tr.At(all[|froms|] - 1).reply.value))
            else Carried(tr, req, s, attempts, timeout, all)
  {
    hide Limit, Restart, TimeAfter, Decisive, Pending;
    var j := |froms| - 1;
    var t, k := Sending(tr, req, s, froms, j), froms[j];
    var limit, last := Limit(tr, req, s.received, timeout, k), Kept(tr, req, s.received, k);
    assert t == AfterSend(tr, Before(tr, req, s, froms, j));
    var w := Window(tr, req, t, t.now, limit, last);
    WindowStopsAtFirstEvent(tr, req, t, t.now, s.received, timeout, last);
    WindowReads(tr, req, t, t.now, limit, last);
    var n := w.link.received;
    all := froms + [n];
    assert all[..j + 1] == froms[..j + 1] == froms;
    SamePrefix(tr, req, s, all, froms, j);
    assert w.link == Before(tr, req, s, all, j + 1);
    assert Sending(tr, req, s, all, j) == t;
    assert Carried(tr, req, s, attempts, timeout, froms) == Resume(tr, req, w, attempts - j);
  }

  lemma {:induction false} Continues(tr: Trace, req: Request, s: LinkState, attempts: nat, timeout: real, froms: seq<nat>)
    returns (all: seq<nat>)
    requires Undecided(tr, req, s, timeout, froms) && |froms| - 1 <= attempts && s.received <= froms[|froms| - 1]
    requires |froms| > 1 ==> !Decided(tr, req, froms, |froms| - 2)
    ensures var (end, v) := Carried(tr, req, s, attempts, timeout, froms);
            Conducted(tr, req, s, attempts, timeout, all, end, v)
    decreases attempts - |froms|
  {
    hide Heard, Decided, Limit;
    var j := |froms| - 1;
    all := froms;
    if j < attempts && !Short(tr, req, s.sent + j) {
      all := OneFrame(tr, req, s, attempts, timeout, froms);
      assert all == froms + [all[|froms|]];
      ListenedOn(tr, req, s, timeout, froms, all[|froms|]);
      if !Decided(tr, req, all, j) {
        all := Continues(tr, req, s, attempts, timeout, all);
      }
    }
  }

  /** Two listenings after the same frame end at the same receive. */
  lemma ListensOnce(tr: Trace, req: Request, first: nat, timeout: real, t: LinkState, m: nat, n: nat)
    requires Listens(tr, req, first, timeout, t, m) && Listens(tr, req, first, timeout, t, n)
    ensures m == n
  {
    hide Stops, Expired;
  }

  lemma {:induction false} SameFroms(tr: Trace, req: Request, s: LinkState, timeout: real, a: seq<nat>, b: seq<nat>, j: nat)
    requires Undecided(tr, req, s, timeout, a) && Undecided(tr, req, s, timeout, b) && j < |a| && j < |b|
    ensures a[..j + 1] == b[..j + 1]
  {
    hide Listens, Decided;
    if j > 0 {
      SameFroms(tr, req, s, timeout, a, b, j - 1);
      SamePrefix(tr, req, s, a, b, j - 1);
      assert Heard(tr, req, s, timeout, a, j - 1) && Heard(tr, req, s, timeout, b, j - 1);
      ListensOnce(tr, req, s.received, timeout, Sending(tr, req, s, a, j - 1), a[j], b[j]);
      assert a[..j + 1] == a[..j] + [a[j]] && b[..j + 1] == b[..j] + [b[j]];
    }
  }

  /** Where a shorter run stands, a longer one went on. */
  lemma LongerGoesOn(tr: Trace, req: Request, s: LinkState, timeout: real, a: seq<nat>, b: seq<nat>)
    requires Undecided(tr, req, s, timeout, a) && Undecided(tr, req, s, timeout, b) && |a| < |b|
    ensures !Short(tr, req, s.sent + |a| - 1) && (|a| > 1 ==> !Decided(tr, req, a, |a| - 2))
  {
    hide Listens, Before, Sending;
    SameFroms(tr, req, s, timeout, a, b, |a| - 1);
    assert a[..|a| - 1 + 1] == a == b[..|a|];
    if |a| > 1 {
      assert a[|a| - 2] == b[|a| - 2] && a[|a| - 1] == b[|a| - 1];
      assert Decided(tr, req, b, |a| - 2) == Decided(tr, req, a, |a| - 2);
    }
    assert Heard(tr, req, s, timeout, b, |a| - 1);
  }

  lemma NotShorter(tr: Trace, req: Request, s: LinkState, attempts: nat, timeout: real,
                   a: seq<nat>, enda: LinkState, va: Verdict, b: seq<nat>, endb: LinkState, vb: Verdict)
    requires Conducted(tr, req, s, attempts, timeout, a, enda, va) && Conducted(tr, req, s, attempts, timeout, b, endb, vb)
    ensures |a| >= |b| > 0
  {
    hide Heard, Decided, Before, Sending;
    if |a| < |b| {
      LongerGoesOn(tr, req, s, timeout, a, b);
      assert false;
    }
  }

  lemma ConductedOnce(tr: Trace, req: Request, s: LinkState, attempts: nat, timeout: real,
                      a: seq<nat>, enda: LinkState, va: Verdict, b: seq<nat>, endb: LinkState, vb: Verdict)
    requires Conducted(tr, req, s, attempts, timeout, a, enda, va) && Conducted(tr, req, s, attempts, timeout, b, endb, vb)
    ensures enda == endb && va == vb
  {
    hide Undecided, Before, Sending, Decided;
    NotShorter(tr, req, s, attempts, timeout, a, enda, va, b, endb, vb);
    NotShorter(tr, req, s, attempts, timeout, b, endb, vb, a, enda, va);
    SameFroms(tr, req, s, timeout, a, b, |a| - 1);
    assert a == b;
  }

  /** The exchange is the one conducted by these rules, on every trace: they leave no other one. */
  lemma ExchangeIsConducted(tr: Trace, req: Request, s: LinkState, attempts: nat, timeout: real, end: LinkState, v: Verdict)
    ensures (end, v) == Exchange(tr, req, s, attempts, timeout)
            <==> exists froms :: Conducted(tr, req, s, attempts, timeout, froms, end, v)
  {
    hide Conducted, Attempts;
    var froms := [s.received];
    assert Before(tr, req, s, froms, 0) == s && Limit(tr, req, s.received, timeout, s.received) == timeout;
    assert Carried(tr, req, s, attempts, timeout, froms) == Exchange(tr, req, s, attempts, timeout);
    var all := Continues(tr, req, s, attempts, timeout, froms);
    var (e, w) := Exchange(tr, req, s, attempts, timeout);
    assert Conducted(tr, req, s, attempts, timeout, all, e, w);
    forall froms | Conducted(tr, req, s, attempts, timeout, froms, end, v)
      ensures end == e && v == w
    {
      ConductedOnce(tr, req, s, attempts, timeout, froms, end, v, all, e, w);
    }
  }
}
