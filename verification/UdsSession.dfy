/** Session control, security access and the walk along a route of sessions, as functions of the trace. */
module UdsSession {
  import opened Common
  import opened UdsExchange
  import opened UdsExchangeLaws

  /**
   The udsoncan library: request builders and response interpreters. None is
   an exception they raise.
   */
  datatype Library = Library(
    sessionRequest: int -> Option<Request>,
    sessionEcho: Reply -> Option<int>,
    seedRequest: int -> Option<Request>,
    seed: Reply -> Option<bytes>,
    keyRequest: (int, bytes) -> Option<Request>,
    keyEcho: Reply -> Option<int>)

  datatype Algorithm = Algorithm(seedLevel: int, keyLevel: int, key: bytes -> Option<bytes>)

  /** An entry of a route; the algorithm is there when the session is to be elevated. */
  datatype SessionAccess = SessionAccess(id: int, algorithm: Option<Algorithm>)

  predicate AllZero(seed: bytes) {
    forall i :: 0 <= i < |seed| ==> seed[i] == 0
  }

  /** Also when there are no bytes at all. */
  lemma AllZeroExactly(seed: bytes)
    ensures AllZero(seed) <==> forall b :: b in seed ==> b == 0
  {
    if !AllZero(seed) {
      var i :| 0 <= i < |seed| && seed[i] != 0;
      assert seed[i] in seed;
    }
  }

  /** `_send_and_read_response` for a request that may have failed to build. */
  function Ask(tr: Trace, attempts: nat, timeout: real, s: LinkState, request: Option<Request>): (r: (LinkState, Option<Reply>)) {
    if request.None? then (s, None)
    else
      var (t, v) := Exchange(tr, request.value, s, attempts, timeout);
      (t, if PositiveOnly(v).Answer? then Some(PositiveOnly(v).reply) else None)
  }

  function RunSession(lib: Library, tr: Trace, attempts: nat, timeout: real, s: LinkState, id: int): (r: (LinkState, Option<int>)) {
    var (t, reply) := Ask(tr, attempts, timeout, s, lib.sessionRequest(id));
    (t, if reply.None? then None else lib.sessionEcho(reply.value))
  }

  function RunSecurityAccess(lib: Library, tr: Trace, attempts: nat, timeout: real, s: LinkState, a: Algorithm)
    : (r: (LinkState, Option<bool>))
  {
    var (t, reply) := Ask(tr, attempts, timeout, s, lib.seedRequest(a.seedLevel));
    var seed := if reply.None? then None else lib.seed(reply.value);
    if seed.None? then (t, None)
    else if AllZero(seed.value) then (t, Some(true))
    else
      var key := a.key(seed.value);
      if key.None? then (t, None)
      else
        var (u, answer) := Ask(tr, attempts, timeout, t, lib.keyRequest(a.keyLevel, key.value));
        var level := if answer.None? then None else lib.keyEcho(answer.value);
        (u, if level.None? then None else Some(level.value == a.keyLevel))
  }

  // ---- When security access is granted -----------------------------------------------------

  /** The exchange from `s` to `end` closed with this reply: valid, positive, of the requested service, and received last. */
  predicate ClosedWith(tr: Trace, req: Request, s: LinkState, end: LinkState, reply: Reply) {
    && s.received < end.received && tr.At(end.received - 1).reply == Some(reply)
    && reply.valid && reply.positive && reply.service == req.service
  }

  /** An exchange hands out exactly the reply it closed with. */
  lemma AskHandsOutExactly(tr: Trace, attempts: nat, timeout: real, s: LinkState, req: Request, reply: Reply)
    ensures var (end, answer) := Ask(tr, attempts, timeout, s, Some(req));
            && s.sent <= end.sent <= s.sent + attempts
            && (answer == Some(reply) <==> ClosedWith(tr, req, s, end, reply))
  {
    ExchangeEndsAtFirstDecisiveReply(tr, req, s, attempts, timeout);
    OnlyPositiveRepliesOfTheService(tr, req, s, attempts, timeout);
  }

  /** The seed exchange from `s` to `t` brought this seed. */
  ghost predicate Seeded(lib: Library, tr: Trace, s: LinkState, t: LinkState, a: Algorithm, seed: bytes) {
    && lib.seedRequest(a.seedLevel).Some?
    && exists reply :: ClosedWith(tr, lib.seedRequest(a.seedLevel).value, s, t, reply) && lib.seed(reply) == Some(seed)
  }

  /** The key exchange from `t` to `end` sent the key of the seed and brought this level. */
  ghost predicate Keyed(lib: Library, tr: Trace, t: LinkState, end: LinkState, a: Algorithm, seed: bytes, level: int) {
    && a.key(seed).Some? && lib.keyRequest(a.keyLevel, a.key(seed).value).Some?
    && exists reply :: ClosedWith(tr, lib.keyRequest(a.keyLevel, a.key(seed).value).value, t, end, reply)
                       && lib.keyEcho(reply) == Some(level)
  }

  /** The link when a request has been asked: after one exchange, or where it was if the request could not be built. */
  function Asked(tr: Trace, attempts: nat, timeout: real, s: LinkState, request: Option<Request>): LinkState {
    if request.None? then s else Exchange(tr, request.value, s, attempts, timeout).0
  }

  /** The exchange for session `id` from `s` to `t` closed with a reply that echoes this session. */
  ghost predicate Echoed(lib: Library, tr: Trace, s: LinkState, t: LinkState, id: int, echo: int) {
    && lib.sessionRequest(id).Some?
    && exists reply :: ClosedWith(tr, lib.sessionRequest(id).value, s, t, reply) && lib.sessionEcho(reply) == Some(echo)
  }

  /** A session change is its one exchange, and yields an echo exactly when that closes with a reply that has it. */
  lemma SessionEchoesExactlyWhen(lib: Library, tr: Trace, attempts: nat, timeout: real, s: LinkState, id: int)
    ensures var (t, echo) := RunSession(lib, tr, attempts, timeout, s, id);
            && t == Asked(tr, attempts, timeout, s, lib.sessionRequest(id))
            && forall e :: echo == Some(e) <==> Echoed(lib, tr, s, t, id, e)
  {
    var (t, answer) := Ask(tr, attempts, timeout, s, lib.sessionRequest(id));
    if lib.sessionRequest(id).Some? {
      var req := lib.sessionRequest(id).value;
      forall reply
        ensures answer == Some(reply) <==> ClosedWith(tr, req, s, t, reply)
      {
        AskHandsOutExactly(tr, attempts, timeout, s, req, reply);
      }
    }
  }

  lemma SeedExactly(lib: Library, tr: Trace, attempts: nat, timeout: real, s: LinkState, a: Algorithm, seed: bytes)
    ensures var (t, answer) := Ask(tr, attempts, timeout, s, lib.seedRequest(a.seedLevel));
            && s.sent <= t.sent <= s.sent + attempts
            && ((answer.Some? && lib.seed(answer.value) == Some(seed)) <==> Seeded(lib, tr, s, t, a, seed))
  {
    var (t, answer) := Ask(tr, attempts, timeout, s, lib.seedRequest(a.seedLevel));
    if lib.seedRequest(a.seedLevel).Some? {
      var req := lib.seedRequest(a.seedLevel).value;
      forall reply
        ensures s.sent <= t.sent <= s.sent + attempts
        ensures answer == Some(reply) <==> ClosedWith(tr, req, s, t, reply)
      {
        AskHandsOutExactly(tr, attempts, timeout, s, req, reply);
      }
      AskHandsOutExactly(tr, attempts, timeout, s, req, Reply(true, 0, true, 0, []));
    }
  }

  lemma KeyExactly(lib: Library, tr: Trace, attempts: nat, timeout: real, t: LinkState, a: Algorithm, seed: bytes, level: int)
    requires a.key(seed).Some?
    ensures var (end, answer) := Ask(tr, attempts, timeout, t, lib.keyRequest(a.keyLevel, a.key(seed).value));
            && t.sent <= end.sent <= t.sent + attempts
            && ((answer.Some? && lib.keyEcho(answer.value) == Some(level)) <==> Keyed(lib, tr, t, end, a, seed, level))
  {
    var request := lib.keyRequest(a.keyLevel, a.key(seed).value);
    var (end, answer) := Ask(tr, attempts, timeout, t, request);
    if request.Some? {
      forall reply
        ensures t.sent <= end.sent <= t.sent + attempts
        ensures answer == Some(reply) <==> ClosedWith(tr, request.value, t, end, reply)
      {
        AskHandsOutExactly(tr, attempts, timeout, t, request.value, reply);
      }
      AskHandsOutExactly(tr, attempts, timeout, t, request.value, Reply(true, 0, true, 0, []));
    }
  }

  /** The seed exchange from `s` to `t` brought a seed of zeros, or the exchange of its key from `t` to `end` the key level. */
  ghost predicate Grants(lib: Library, tr: Trace, s: LinkState, t: LinkState, end: LinkState, a: Algorithm) {
    || (exists seed :: Seeded(lib, tr, s, t, a, seed) && AllZero(seed))
    || (exists seed :: Seeded(lib, tr, s, t, a, seed) && !AllZero(seed) && Keyed(lib, tr, t, end, a, seed, a.keyLevel))
  }

  /** The seed exchange from `s` brought this seed, and there is a key for it. */
  ghost predicate Unlockable(lib: Library, tr: Trace, s: LinkState, t: LinkState, a: Algorithm, seed: bytes) {
    Seeded(lib, tr, s, t, a, seed) && !AllZero(seed) && a.key(seed).Some?
  }

  /** From `s` to `end` there is the seed exchange and, if it brought a seed with a key, the exchange of that key. */
  ghost predicate Elevated(lib: Library, tr: Trace, attempts: nat, timeout: real, s: LinkState, end: LinkState, a: Algorithm) {
    var t := Asked(tr, attempts, timeout, s, lib.seedRequest(a.seedLevel));
    && (forall seed :: Unlockable(lib, tr, s, t, a, seed) ==>
          end == Asked(tr, attempts, timeout, t, lib.keyRequest(a.keyLevel, a.key(seed).value)))
    && ((forall seed :: !Unlockable(lib, tr, s, t, a, seed)) ==> end == t)
  }

  lemma SecurityAccessElevates(lib: Library, tr: Trace, attempts: nat, timeout: real, s: LinkState, a: Algorithm)
    ensures Elevated(lib, tr, attempts, timeout, s, RunSecurityAccess(lib, tr, attempts, timeout, s, a).0, a)
  {
    hide Seeded, AllZero, Exchange;
    var (t, answer) := Ask(tr, attempts, timeout, s, lib.seedRequest(a.seedLevel));
    forall seed
      ensures Seeded(lib, tr, s, t, a, seed) <==> answer.Some? && lib.seed(answer.value) == Some(seed)
    {
      SeedExactly(lib, tr, attempts, timeout, s, a, seed);
    }
    if answer.Some? && lib.seed(answer.value).Some? {
      var seed := lib.seed(answer.value).value;
      assert !AllZero(seed) && a.key(seed).Some? ==> Unlockable(lib, tr, s, t, a, seed);
    }
  }

  /**
   Access is granted exactly when the seed exchange closes with a seed that is all
   zero, and then nothing more is sent; or the exchange of its key closes with an
   echo of the key level. It is refused exactly when that echo is another level.
   */
  lemma SecurityAccessGrantsExactlyWhen(lib: Library, tr: Trace, attempts: nat, timeout: real, s: LinkState, a: Algorithm)
    ensures var (end, granted) := RunSecurityAccess(lib, tr, attempts, timeout, s, a);
            var t := Asked(tr, attempts, timeout, s, lib.seedRequest(a.seedLevel));
            && (granted == Some(true) <==> Grants(lib, tr, s, t, end, a))
            && (granted == Some(false) <==>
                  exists seed, level :: Seeded(lib, tr, s, t, a, seed) && !AllZero(seed)
                                        && Keyed(lib, tr, t, end, a, seed, level) && level != a.keyLevel)
            && ((exists seed :: Seeded(lib, tr, s, t, a, seed) && AllZero(seed)) ==> end == t)
            && Elevated(lib, tr, attempts, timeout, s, end, a)
            && s.sent <= t.sent <= s.sent + attempts && t.sent <= end.sent <= t.sent + attempts
  {
    hide Elevated;
    SecurityAccessElevates(lib, tr, attempts, timeout, s, a);
    var (t, answer) := Ask(tr, attempts, timeout, s, lib.seedRequest(a.seedLevel));
    forall seed
      ensures s.sent <= t.sent <= s.sent + attempts
      ensures (answer.Some? && lib.seed(answer.value) == Some(seed)) <==> Seeded(lib, tr, s, t, a, seed)
    {
      SeedExactly(lib, tr, attempts, timeout, s, a, seed);
    }
    SeedExactly(lib, tr, attempts, timeout, s, a, []);
    if answer.Some? && lib.seed(answer.value).Some? {
      var seed := lib.seed(answer.value).value;
      if !AllZero(seed) && a.key(seed).Some? {
        var (end, reply) := Ask(tr, attempts, timeout, t, lib.keyRequest(a.keyLevel, a.key(seed).value));
        forall level
          ensures (reply.Some? && lib.keyEcho(reply.value) == Some(level)) <==> Keyed(lib, tr, t, end, a, seed, level)
        {
          KeyExactly(lib, tr, attempts, timeout, t, a, seed, level);
        }
        KeyExactly(lib, tr, attempts, timeout, t, a, seed, 0);
      }
    }
  }

  datatype TransitRun = TransitRun(link: LinkState, ok: bool, requested: seq<int>)

  function Transit(lib: Library, tr: Trace, attempts: nat, timeout: real, s: LinkState, route: seq<SessionAccess>): (r: TransitRun)
    decreases |route|
  {
    if route == [] then TransitRun(s, true, [])
    else
      var (t, echo) := RunSession(lib, tr, attempts, timeout, s, route[0].id);
      if echo.None? then TransitRun(t, false, [route[0].id])
      else
        var rest := Transit(lib, tr, attempts, timeout, AfterEntry(lib, tr, attempts, timeout, s, route[0]), route[1..]);
        rest.(requested := [route[0].id] + rest.requested)
  }

  /** The link after one entry of the route, whatever came of the session change and of the elevation. */
  function AfterEntry(lib: Library, tr: Trace, attempts: nat, timeout: real, s: LinkState, e: SessionAccess): LinkState {
    var t := RunSession(lib, tr, attempts, timeout, s, e.id).0;
    if e.algorithm.None? then t else RunSecurityAccess(lib, tr, attempts, timeout, t, e.algorithm.value).0
  }

  // ---- Whole runs --------------------------------------------------------------------------

  /** Entry `e` takes the link from `s` to `end`: the session exchange, then the elevation if it carries an algorithm. */
  ghost predicate Walked(lib: Library, tr: Trace, attempts: nat, timeout: real, s: LinkState, end: LinkState, e: SessionAccess) {
    var t := Asked(tr, attempts, timeout, s, lib.sessionRequest(e.id));
    if e.algorithm.None? then end == t else Elevated(lib, tr, attempts, timeout, t, end, e.algorithm.value)
  }

  lemma EntryIsWalked(lib: Library, tr: Trace, attempts: nat, timeout: real, s: LinkState, e: SessionAccess)
    ensures Walked(lib, tr, attempts, timeout, s, AfterEntry(lib, tr, attempts, timeout, s, e), e)
  {
    hide Elevated, RunSession, RunSecurityAccess;
    SessionEchoesExactlyWhen(lib, tr, attempts, timeout, s, e.id);
    if e.algorithm.Some? {
      var t := RunSession(lib, tr, attempts, timeout, s, e.id).0;
      SecurityAccessGrantsExactlyWhen(lib, tr, attempts, timeout, t, e.algorithm.value);
    }
  }

  /** The session exchange of session `id` from `s` closes with a reply that the interpreter accepts. */
  ghost predicate Completes(lib: Library, tr: Trace, attempts: nat, timeout: real, s: LinkState, id: int) {
    exists echo :: Echoed(lib, tr, s, Asked(tr, attempts, timeout, s, lib.sessionRequest(id)), id, echo)
  }

  lemma CompletesExactlyWhen(lib: Library, tr: Trace, attempts: nat, timeout: real, s: LinkState, id: int)
    ensures RunSession(lib, tr, attempts, timeout, s, id).0 == Asked(tr, attempts, timeout, s, lib.sessionRequest(id))
    ensures RunSession(lib, tr, attempts, timeout, s, id).1.Some? <==> Completes(lib, tr, attempts, timeout, s, id)
  {
    hide Asked, RunSession, Echoed;
    SessionEchoesExactlyWhen(lib, tr, attempts, timeout, s, id);
    var (t, echo) := RunSession(lib, tr, attempts, timeout, s, id);
    if echo.Some? {
      assert Echoed(lib, tr, s, t, id, echo.value);
    }
  }

  /** The link before each entry of a route and after the last, when all entries are walked. */
  ghost predicate Stations(lib: Library, tr: Trace, attempts: nat, timeout: real, s: LinkState, route: seq<SessionAccess>,
                           links: seq<LinkState>)
  {
    && |links| == |route| + 1 && links[0] == s
    && forall i :: 0 <= i < |route| ==> Walked(lib, tr, attempts, timeout, links[i], links[i + 1], route[i])
  }

  function Ids(route: seq<SessionAccess>): (r: seq<int>)
    ensures |r| == |route|
  {
    if route == [] then [] else [route[0].id] + Ids(route[1..])
  }

  lemma StationsExtend(lib: Library, tr: Trace, attempts: nat, timeout: real, s: LinkState, route: seq<SessionAccess>,
                       rest: seq<LinkState>)
    requires route != []
    requires Stations(lib, tr, attempts, timeout, AfterEntry(lib, tr, attempts, timeout, s, route[0]), route[1..], rest)
    ensures Stations(lib, tr, attempts, timeout, s, route, [s] + rest)
  {
    hide Walked, AfterEntry;
    var links := [s] + rest;
    EntryIsWalked(lib, tr, attempts, timeout, s, route[0]);
    forall i | 0 <= i < |route|
      ensures Walked(lib, tr, attempts, timeout, links[i], links[i + 1], route[i])
    {
      if i > 0 {
        assert Walked(lib, tr, attempts, timeout, rest[i - 1], rest[i], route[1..][i - 1]);
      }
    }
  }

  /** The walk went `n` sessions along the stations: to the end, or to the first exchange that does not complete. */
  ghost predicate StopsAt(lib: Library, tr: Trace, attempts: nat, timeout: real, route: seq<SessionAccess>, links: seq<LinkState>,
                          run: TransitRun)
    requires |links| == |route| + 1
  {
    var n := |run.requested|;
    && n <= |route| && run.requested == Ids(route)[..n]
    && (run.ok <==> forall i :: 0 <= i < |route| ==> Completes(lib, tr, attempts, timeout, links[i], route[i].id))
    && (run.ok ==> n == |route| && run.link == links[n])
    && (!run.ok ==>
          && n > 0
          && !Completes(lib, tr, attempts, timeout, links[n - 1], route[n - 1].id)
          && (forall i :: 0 <= i < n - 1 ==> Completes(lib, tr, attempts, timeout, links[i], route[i].id))
          && run.link == Asked(tr, attempts, timeout, links[n - 1], lib.sessionRequest(route[n - 1].id)))
  }

  lemma StopsOneLater(lib: Library, tr: Trace, attempts: nat, timeout: real, s: LinkState, route: seq<SessionAccess>,
                      rest: seq<LinkState>, run: TransitRun)
    requires route != [] && |rest| == |route| && Completes(lib, tr, attempts, timeout, s, route[0].id)
    requires StopsAt(lib, tr, attempts, timeout, route[1..], rest, run)
    ensures StopsAt(lib, tr, attempts, timeout, route, [s] + rest, run.(requested := [route[0].id] + run.requested))
  {
    hide Completes, Asked;
    var links, n := [s] + rest, |run.requested| + 1;
    assert Ids(route)[..n] == [route[0].id] + Ids(route[1..])[..n - 1];
    forall i | 0 < i < |route|
      ensures Completes(lib, tr, attempts, timeout, links[i], route[i].id)
          <==> Completes(lib, tr, attempts, timeout, rest[i - 1], route[1..][i - 1].id)
    {
    }
    assert forall i :: 0 <= i < |route| - 1 ==>
      Completes(lib, tr, attempts, timeout, rest[i], route[1..][i].id)
      == Completes(lib, tr, attempts, timeout, links[i + 1], route[i + 1].id);
  }

  /**
   The walk returns true exactly when every session exchange on the route
   completes; otherwise the sessions requested are the route up to and including
   the first one that does not. How elevations fare does not enter.
   */
  lemma {:induction false} TransitStopsAtFirstFailure(lib: Library, tr: Trace, attempts: nat, timeout: real, s: LinkState,
                                                      route: seq<SessionAccess>) returns (links: seq<LinkState>)
    ensures Stations(lib, tr, attempts, timeout, s, route, links)
    ensures StopsAt(lib, tr, attempts, timeout, route, links, Transit(lib, tr, attempts, timeout, s, route))
    decreases |route|
  {
    hide Completes, Walked, Asked, AfterEntry, RunSession;
    if route == [] {
      links := [s];
    } else {
      var s' := AfterEntry(lib, tr, attempts, timeout, s, route[0]);
      var rest := TransitStopsAtFirstFailure(lib, tr, attempts, timeout, s', route[1..]);
      links := [s] + rest;
      StationsExtend(lib, tr, attempts, timeout, s, route, rest);
      CompletesExactlyWhen(lib, tr, attempts, timeout, s, route[0].id);
      if Completes(lib, tr, attempts, timeout, s, route[0].id) {
        StopsOneLater(lib, tr, attempts, timeout, s, route, rest, Transit(lib, tr, attempts, timeout, s', route[1..]));
      } else {
        assert Ids(route)[..1] == [route[0].id];
      }
    }
  }

  /** Entries among the route that carry an algorithm. */
  function Elevating(route: seq<SessionAccess>): nat {
    if route == [] then 0 else (if route[0].algorithm.Some? then 1 else 0) + Elevating(route[1..])
  }

  lemma AskSends(tr: Trace, attempts: nat, timeout: real, s: LinkState, request: Option<Request>)
    ensures s.sent <= Ask(tr, attempts, timeout, s, request).0.sent <= s.sent + attempts
  {
    if request.Some? {
      ExchangeEndsAtFirstDecisiveReply(tr, request.value, s, attempts, timeout);
    }
  }

  lemma EntrySends(lib: Library, tr: Trace, attempts: nat, timeout: real, s: LinkState, e: SessionAccess)
    ensures s.sent <= RunSession(lib, tr, attempts, timeout, s, e.id).0.sent <= s.sent + attempts
    ensures s.sent <= AfterEntry(lib, tr, attempts, timeout, s, e).sent
         <= s.sent + attempts + (if e.algorithm.Some? then 2 * attempts else 0)
  {
    AskSends(tr, attempts, timeout, s, lib.sessionRequest(e.id));
    var t := RunSession(lib, tr, attempts, timeout, s, e.id).0;
    if e.algorithm.Some? {
      var a := e.algorithm.value;
      AskSends(tr, attempts, timeout, t, lib.seedRequest(a.seedLevel));
      var (u, reply) := Ask(tr, attempts, timeout, t, lib.seedRequest(a.seedLevel));
      if reply.Some? && lib.seed(reply.value).Some? {
        var key := a.key(lib.seed(reply.value).value);
        if key.Some? {
          AskSends(tr, attempts, timeout, u, lib.keyRequest(a.keyLevel, key.value));
        }
      }
    }
  }

  /** One exchange for each entry, two more for each elevation. */
  function Allowance(attempts: nat, route: seq<SessionAccess>): nat {
    if route == [] then 0
    else attempts + (if route[0].algorithm.Some? then 2 * attempts else 0) + Allowance(attempts, route[1..])
  }

  lemma {:induction false} AllowanceIsProduct(attempts: nat, route: seq<SessionAccess>)
    ensures Allowance(attempts, route) == attempts * (|route| + 2 * Elevating(route))
  {
    if route != [] {
      AllowanceIsProduct(attempts, route[1..]);
      var now, rest := 1 + (if route[0].algorithm.Some? then 2 else 0), |route[1..]| + 2 * Elevating(route[1..]);
      assert |route| + 2 * Elevating(route) == now + rest;
      assert attempts * (now + rest) == attempts * now + attempts * rest;
    }
  }

  lemma {:induction false} TransitWithinAllowance(lib: Library, tr: Trace, attempts: nat, timeout: real, s: LinkState,
                                                  route: seq<SessionAccess>)
    ensures Transit(lib, tr, attempts, timeout, s, route).link.sent <= s.sent + Allowance(attempts, route)
    decreases |route|
  {
    if route != [] {
      EntrySends(lib, tr, attempts, timeout, s, route[0]);
      TransitWithinAllowance(lib, tr, attempts, timeout, AfterEntry(lib, tr, attempts, timeout, s, route[0]), route[1..]);
    }
  }

  /** Frames on the wire over a whole walk. */
  lemma TransitFrameBound(lib: Library, tr: Trace, attempts: nat, timeout: real, s: LinkState, route: seq<SessionAccess>)
    ensures Transit(lib, tr, attempts, timeout, s, route).link.sent
         <= s.sent + attempts * (|route| + 2 * Elevating(route))
  {
    TransitWithinAllowance(lib, tr, attempts, timeout, s, route);
    AllowanceIsProduct(attempts, route);
  }
}
