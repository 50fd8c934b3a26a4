/** Receiving and sniffing on a CAN bus. */
module CanSniff {
  import opened Common

  datatype CanMessage = CanMessage(arbitrationId: int, data: bytes)

  function Later(a: real, b: real): real {
    if a < b then b else a
  }

  function Earlier(a: real, b: real): real {
    if a < b then a else b
  }

  // ---- The filter ---------------------------------------------------------------------------

  /** The frames whose id is not blacklisted, in order. */
  function Kept(frames: seq<CanMessage>, blacklist: set<int>): (r: seq<CanMessage>) {
    if frames == [] then []
    else
      var last := frames[|frames| - 1];
      Kept(frames[..|frames| - 1], blacklist) + (if last.arbitrationId in blacklist then [] else [last])
  }

  lemma {:induction false} KeptConcat(a: seq<CanMessage>, b: seq<CanMessage>, blacklist: set<int>)
    ensures Kept(a + b, blacklist) == Kept(a, blacklist) + Kept(b, blacklist)
    decreases |b|
  {
    if b == [] {
      assert a + b == a;
    } else {
      var n := |b| - 1;
      assert (a + b)[..|a + b| - 1] == a + b[..n];
      KeptConcat(a, b[..n], blacklist);
    }
  }

  /** One frame more. */
  lemma KeptGrows(frames: seq<CanMessage>, lo: nat, hi: nat, blacklist: set<int>)
    requires lo <= hi < |frames|
    ensures Kept(frames[lo..hi + 1], blacklist)
         == Kept(frames[lo..hi], blacklist) + (if frames[hi].arbitrationId in blacklist then [] else [frames[hi]])
  {
    assert frames[lo..hi + 1][..hi - lo] == frames[lo..hi];
  }

  lemma KeptJoins(frames: seq<CanMessage>, lo: nat, mid: nat, hi: nat, blacklist: set<int>)
    requires lo <= mid <= hi <= |frames|
    ensures Kept(frames[lo..hi], blacklist) == Kept(frames[lo..mid], blacklist) + Kept(frames[mid..hi], blacklist)
  {
    assert frames[lo..hi] == frames[lo..mid] + frames[mid..hi];
    KeptConcat(frames[lo..mid], frames[mid..hi], blacklist);
  }

  /** Growing the blacklist only removes frames, exactly those with a new id. */
  lemma {:induction false} BlacklistGrows(frames: seq<CanMessage>, blacklist: set<int>, more: set<int>)
    ensures Kept(frames, blacklist + more) == Kept(Kept(frames, blacklist), more)
  {
    if frames != [] {
      var before, last := frames[..|frames| - 1], frames[|frames| - 1];
      BlacklistGrows(before, blacklist, more);
      var kept := Kept(before, blacklist);
      if last.arbitrationId !in blacklist {
        assert (kept + [last])[..|kept|] == kept;
      } else {
        assert kept + [] == kept;
      }
    }
  }

  /** A frame is kept exactly when it is there and its id is not blacklisted. */
  lemma {:induction false} KeptExactly(frames: seq<CanMessage>, blacklist: set<int>, m: CanMessage)
    ensures m in Kept(frames, blacklist) <==> m in frames && m.arbitrationId !in blacklist
  {
    if frames != [] {
      var before, last := frames[..|frames| - 1], frames[|frames| - 1];
      assert frames == before + [last];
      KeptExactly(before, blacklist, m);
    }
  }

  // ---- Waiting for a frame --------------------------------------------------------------------------

  /** What reaches the socket: frames in order of arrival, and how long delivering each one takes. */
  datatype Line = Line(frames: seq<CanMessage>, times: seq<real>, lag: nat -> real)
  {
    ghost predicate Orderly() {
      && |frames| == |times|
      && (forall i: nat :: lag(i) >= 0.0)
      && (forall i, j :: 0 <= i < j < |times| ==> times[i] <= times[j])
    }

    /** Delivering takes no time. */
    ghost predicate Prompt() {
      forall i: nat :: lag(i) == 0.0
    }
  }

  /** What a wait brought, which frame is next, and the time. */
  datatype Wait = Wait(message: Option<CanMessage>, next: nat, now: real)

  /** The next frame if it arrives within the timeout, delivered at the latest when that ends; None exactly then. */
  function WaitOnce(l: Line, timeout: real, next: nat, now: real): (w: Wait)
    requires l.Orderly()
  {
    if next < |l.times| && l.times[next] <= now + timeout then
      Wait(Some(l.frames[next]), next + 1, Earlier(Later(now, l.times[next]) + l.lag(next), now + timeout))
    else Wait(None, next, now + timeout)
  }

  /** The waits of a receive that started at `start`, from `next` and `now` on. */
  function Waits(l: Line, blacklist: set<int>, start: real, timeout: real, next: nat, now: real): (w: Wait)
    requires l.Orderly() && now >= start
    decreases |l.times| - next, if now - start < timeout then 1 else 0
  {
    if now - start >= timeout then Wait(None, next, now)
    else
      var w := WaitOnce(l, timeout, next, now);
      if w.message.Some? && w.message.value.arbitrationId !in blacklist then w
      else Waits(l, blacklist, start, timeout, w.next, w.now)
  }

  lemma WaitsEnd(l: Line, blacklist: set<int>, start: real, timeout: real, next: nat, now: real)
    requires l.Orderly() && now >= start && now >= start + timeout
    ensures Waits(l, blacklist, start, timeout, next, now) == Wait(None, next, now)
  {
  }

  /** One wait of a receive whose time is not up: it ends there, or goes on behind it. */
  lemma WaitsStep(l: Line, blacklist: set<int>, start: real, timeout: real, next: nat, now: real)
    requires l.Orderly() && start <= now < start + timeout
    ensures var w := WaitOnce(l, timeout, next, now);
            && w.now >= start
            && Waits(l, blacklist, start, timeout, next, now)
               == if w.message.Some? && w.message.value.arbitrationId !in blacklist then w
                  else Waits(l, blacklist, start, timeout, w.next, w.now)
  {
  }

  /** A receive that started at `start` has taken the frames from `from` up to `next`, and it is `now`. */
  ghost predicate Receiving(l: Line, timeout: real, from: nat, start: real, next: nat, now: real) {
    && l.Orderly() && from <= next <= |l.frames|
    && start <= now && (if timeout > 0.0 then now < start + 2.0 * timeout else now == start && next == from)
    && (forall i :: from <= i < next ==> l.times[i] <= now)
    && (l.Prompt() ==> now == start || forall i :: next <= i < |l.times| ==> l.times[i] >= now)
  }

  lemma ReceivingGoesOn(l: Line, timeout: real, from: nat, start: real, next: nat, now: real, w: Wait)
    requires Receiving(l, timeout, from, start, next, now) && now < start + timeout && w == WaitOnce(l, timeout, next, now)
    ensures Receiving(l, timeout, from, start, w.next, w.now)
    ensures w.next == if w.message.Some? then next + 1 else next
  {
  }

  /**
   Of the frames from `n` on, one arrives strictly inside the window of `timeout` that
   opens at `start`, and all that arrive by its end are blacklisted and come before it.
   */
  ghost predicate OnlyBlacklistedInside(l: Line, blacklist: set<int>, n: nat, start: real, timeout: real)
    requires l.Orderly()
  {
    && (exists i :: n <= i < |l.times| && start < l.times[i] < start + timeout)
    && (forall i :: n <= i < |l.times| && l.times[i] <= start + timeout ==>
          l.times[i] < start + timeout && l.frames[i].arbitrationId in blacklist)
  }

  // ---- When a receive overruns its timeout ---------------------------------------------------------

  /** The time when a receive that started at `start` has been handed the frames from `from` up to `next`. */
  function Clock(l: Line, from: nat, start: real, next: nat): real
    requires from <= next <= |l.times|
    decreases next
  {
    if next == from then start else Later(Clock(l, from, start, next - 1), l.times[next - 1]) + l.lag(next - 1)
  }

  /** The instant at which frame `i` is handed over. */
  function HandedAt(l: Line, from: nat, start: real, i: nat): real
    requires from <= i < |l.times|
  {
    Clock(l, from, start, i + 1)
  }

  lemma {:induction false} ClockGrows(l: Line, from: nat, start: real, a: nat, b: nat)
    requires l.Orderly() && from <= a <= b <= |l.times|
    ensures Clock(l, from, start, a) <= Clock(l, from, start, b)
    decreases b - a
  {
    if a < b {
      ClockGrows(l, from, start, a, b - 1);
    }
  }

  /**
   Of the frames from `n` on, one is handed over strictly inside the window of `timeout` that
   opens at `start`, and all that are handed over by its end are blacklisted and come before it.
   */
  ghost predicate OnlyBlacklistedHanded(l: Line, blacklist: set<int>, n: nat, start: real, timeout: real)
    requires l.Orderly()
  {
    && (exists i :: n <= i < |l.times| && start < HandedAt(l, n, start, i) < start + timeout)
    && (forall i :: n <= i < |l.times| && HandedAt(l, n, start, i) <= start + timeout ==>
          HandedAt(l, n, start, i) < start + timeout && l.frames[i].arbitrationId in blacklist)
  }

  /** So far only blacklisted frames were handed over. */
  ghost predicate Waited(l: Line, blacklist: set<int>, from: nat, start: real, next: nat, now: real)
    requires l.Orderly()
  {
    && from <= next <= |l.times| && now == Clock(l, from, start, next) && start <= now
    && forall i :: from <= i < next ==> l.frames[i].arbitrationId in blacklist
  }

  /** Inside the window, with nothing more handed over by its end: the law holds exactly if some frame was met inside it. */
  lemma NothingMoreInside(l: Line, blacklist: set<int>, from: nat, start: real, timeout: real, next: nat, now: real)
    requires l.Orderly() && Waited(l, blacklist, from, start, next, now) && now < start + timeout
    requires next < |l.times| ==> HandedAt(l, from, start, next) > start + timeout
    ensures OnlyBlacklistedHanded(l, blacklist, from, start, timeout) <==> now > start
  {
    forall i | from <= i < |l.times|
      ensures if i < next then HandedAt(l, from, start, i) <= now else HandedAt(l, from, start, i) > start + timeout
    {
      if i < next {
        ClockGrows(l, from, start, i + 1, next);
      } else {
        ClockGrows(l, from, start, next + 1, i + 1);
      }
    }
    if now > start {
      assert next > from && HandedAt(l, from, start, next - 1) == now;
    }
  }

  /** A frame that ends the wait: kept inside the window, or handed over at its very end. */
  lemma EndsInTime(l: Line, blacklist: set<int>, from: nat, start: real, timeout: real, next: nat)
    requires l.Orderly() && from <= next < |l.times|
    requires || HandedAt(l, from, start, next) == start + timeout
             || (HandedAt(l, from, start, next) < start + timeout && l.frames[next].arbitrationId !in blacklist)
    ensures !OnlyBlacklistedHanded(l, blacklist, from, start, timeout)
  {
    var t := HandedAt(l, from, start, next);
    assert t <= start + timeout;
  }

  /**
   A receive overruns its timeout exactly when a frame is handed over inside the window and
   only blacklisted ones, none at the very end, are handed over by then.
   */
  lemma {:induction false} WaitsOverrun(l: Line, blacklist: set<int>, from: nat, start: real, timeout: real, next: nat, now: real)
    requires l.Orderly() && Waited(l, blacklist, from, start, next, now) && now < start + timeout
    ensures Waits(l, blacklist, start, timeout, next, now).now > start + timeout
            <==> OnlyBlacklistedHanded(l, blacklist, from, start, timeout)
    decreases |l.times| - next
  {
    hide OnlyBlacklistedHanded;
    WaitsStep(l, blacklist, start, timeout, next, now);
    var w := WaitOnce(l, timeout, next, now);
    assert next < |l.times| ==> HandedAt(l, from, start, next) == Later(now, l.times[next]) + l.lag(next);
    if next == |l.times| || HandedAt(l, from, start, next) > start + timeout {
      NothingMoreInside(l, blacklist, from, start, timeout, next, now);
      WaitsEnd(l, blacklist, start, timeout, w.next, w.now);
    } else if HandedAt(l, from, start, next) == start + timeout {
      EndsInTime(l, blacklist, from, start, timeout, next);
      WaitsEnd(l, blacklist, start, timeout, w.next, w.now);
    } else if l.frames[next].arbitrationId in blacklist {
      WaitsOverrun(l, blacklist, from, start, timeout, next + 1, w.now);
    } else {
      EndsInTime(l, blacklist, from, start, timeout, next);
    }
  }

  /** The same for a whole receive, on every line. */
  lemma ReceiveOverrunsExactly(l: Line, blacklist: set<int>, timeout: real, next: nat, now: real)
    requires l.Orderly() && next <= |l.times| && timeout > 0.0
    ensures Waits(l, blacklist, now, timeout, next, now).now > now + timeout
            <==> OnlyBlacklistedHanded(l, blacklist, next, now, timeout)
  {
    WaitsOverrun(l, blacklist, next, now, timeout, next, now);
  }

  // On a line that delivers promptly, frames are handed over as they arrive.

  lemma {:induction false} PromptlyHanded(l: Line, from: nat, start: real, i: nat)
    requires l.Orderly() && l.Prompt() && from <= i < |l.times|
    ensures HandedAt(l, from, start, i) == Later(start, l.times[i])
    decreases i
  {
    assert HandedAt(l, from, start, i) == Later(Clock(l, from, start, i), l.times[i]) + l.lag(i);
    if i > from {
      PromptlyHanded(l, from, start, i - 1);
      assert Clock(l, from, start, i) == HandedAt(l, from, start, i - 1);
    }
  }

  /** Over the instants of arrival, when delivering takes no time. */
  lemma ReceiveOverrunsExactlyWhen(l: Line, blacklist: set<int>, timeout: real, next: nat, now: real)
    requires l.Orderly() && l.Prompt() && next <= |l.times| && timeout > 0.0
    ensures Waits(l, blacklist, now, timeout, next, now).now > now + timeout
            <==> OnlyBlacklistedInside(l, blacklist, next, now, timeout)
  {
    ReceiveOverrunsExactly(l, blacklist, timeout, next, now);
    forall i | next <= i < |l.times|
      ensures HandedAt(l, next, now, i) == Later(now, l.times[i])
    {
      PromptlyHanded(l, next, now, i);
    }
    PromptInside(l, blacklist, next, now, timeout);
  }

  lemma PromptInside(l: Line, blacklist: set<int>, n: nat, start: real, timeout: real)
    requires l.Orderly() && timeout > 0.0
    requires forall i :: n <= i < |l.times| ==> HandedAt(l, n, start, i) == Later(start, l.times[i])
    ensures OnlyBlacklistedHanded(l, blacklist, n, start, timeout) <==> OnlyBlacklistedInside(l, blacklist, n, start, timeout)
  {
    hide HandedAt;
    if OnlyBlacklistedHanded(l, blacklist, n, start, timeout) {
      var i :| n <= i < |l.times| && start < HandedAt(l, n, start, i) < start + timeout;
      assert start < l.times[i] < start + timeout;
      forall j | n <= j < |l.times| && l.times[j] <= start + timeout
        ensures l.times[j] < start + timeout && l.frames[j].arbitrationId in blacklist
      {
        assert HandedAt(l, n, start, j) <= start + timeout;
      }
    }
    if OnlyBlacklistedInside(l, blacklist, n, start, timeout) {
      var i :| n <= i < |l.times| && start < l.times[i] < start + timeout;
      assert start < HandedAt(l, n, start, i) < start + timeout;
    }
  }

  function NoLag(i: nat): real {
    0.0
  }

  /** One blacklisted frame, `margin` before the end of the window, makes a receive take twice its timeout less `margin`. */
  lemma OneBlacklistedFrameOverruns(frame: CanMessage, timeout: real, margin: real)
    requires 0.0 < margin < timeout
    ensures var l, b := Line([frame], [timeout - margin], NoLag), {frame.arbitrationId};
            && l.Orderly() && l.Prompt()
            && Waits(l, b, 0.0, timeout, 0, 0.0) == Wait(None, 1, 2.0 * timeout - margin)
            && OnlyBlacklistedInside(l, b, 0, 0.0, timeout)
  {
    var l, b := Line([frame], [timeout - margin], NoLag), {frame.arbitrationId};
    var first, second := timeout - margin, 2.0 * timeout - margin;
    assert WaitOnce(l, timeout, 0, 0.0) == Wait(Some(frame), 1, first);
    assert WaitOnce(l, timeout, 1, first) == Wait(None, 1, second);
    assert Waits(l, b, 0.0, timeout, 1, second) == Wait(None, 1, second);
    assert Waits(l, b, 0.0, timeout, 1, first) == Wait(None, 1, second);
    assert 0.0 < l.times[0] < timeout;
  }

  // ---- The bus --------------------------------------------------------------------------------------

  /** A bus as its socket sees it, with what has been delivered and the time. Only receiving takes time. */
  class SocketcanBus {
    const line: Line
    var next: nat
    var now: real

    ghost predicate Valid()
      reads this
    {
      line.Orderly() && next <= |line.frames|
    }

    constructor (line: Line, start: real)
      requires line.Orderly()
      ensures Valid() && next == 0 && now == start && this.line == line
    {
      this.line, next, now := line, 0, start;
    }

    /** Whatever has not been delivered arrives at `t` or later. */
    ghost predicate PendingFrom(t: real)
      requires Valid()
      reads this
    {
      forall i :: next <= i < |line.times| ==> line.times[i] >= t
    }

    /** The next frame if it arrives within the timeout, and at the latest when that ends; None exactly then. */
    method Recv(timeout: real) returns (m: Option<CanMessage>)
      requires Valid() && timeout > 0.0
      modifies this
      ensures Valid() && old(now) <= now <= old(now) + timeout
      ensures m.Some? ==> && old(next) < |line.frames| && next == old(next) + 1
                          && m.value == line.frames[old(next)] && line.times[old(next)] <= now
      ensures m.None? ==> next == old(next) && now == old(now) + timeout && PendingFrom(now)
      ensures line.Prompt() ==> now == old(now) || PendingFrom(now)
      ensures Wait(m, next, now) == WaitOnce(line, timeout, old(next), old(now))
    {
      if next < |line.frames| && line.times[next] <= now + timeout {
        m := Some(line.frames[next]);
        now := Earlier(Later(now, line.times[next]) + line.lag(next), now + timeout);
        next := next + 1;
      } else {
        m := None;
        now := now + timeout;
      }
    }

    /** The next frame, whenever it arrives. */
    method RecvBlocking() returns (m: CanMessage)
      requires Valid() && next < |line.frames|
      modifies this
      ensures Valid() && next == old(next) + 1 && m == line.frames[old(next)]
      ensures now >= old(now) && now >= line.times[old(next)]
    {
      m := line.frames[next];
      now := Later(now, line.times[next]) + line.lag(next);
      next := next + 1;
    }
  }

  // ---- The communicator ----------------------------------------------------------------------------------

  /** `Blocked` is a call that never returns. */
  datatype Reception = NotOpen | Blocked | Returned(message: Option<CanMessage>)

  datatype CanError = HasNotBeenOpened | AlreadyOpen

  class CanCommunicatorSocketCan {
    var bus: SocketcanBus?
    var blacklistIds: set<int>

    constructor (blacklist: set<int>)
      ensures bus == null && blacklistIds == blacklist
    {
      bus, blacklistIds := null, blacklist;
    }

    method Open(socket: SocketcanBus) returns (r: Result<(), CanError>)
      modifies this`bus
      ensures r == if old(bus) == null then Ok(()) else Err(AlreadyOpen)
      ensures bus == if old(bus) == null then socket else old(bus)
    {
      if bus != null {
        return Err(AlreadyOpen);
      }
      bus := socket;
      r := Ok(());
    }

    method Close()
      modifies this`bus
      ensures bus == null
    {
      bus := null;
    }

    /** What the call delivered, without blacklisted frames. */
    ghost function Delivered(from: nat): seq<CanMessage>
      requires bus != null && bus.Valid() && from <= bus.next
      reads this, bus
    {
      Kept(bus.line.frames[from..bus.next], blacklistIds)
    }

    /** Without a timeout, one frame is awaited; it is dropped if blacklisted. */
    method ReceiveOne() returns (r: Reception)
      requires bus != null && bus.Valid()
      modifies bus
      ensures bus.Valid()
      ensures r == Blocked <==> old(bus.next) == |bus.line.frames|
      ensures r == Blocked ==> bus.next == old(bus.next)
      ensures r != Blocked ==>
                && bus.next == old(bus.next) + 1 && r.Returned?
                && Delivered(old(bus.next)) == if r.message.Some? then [r.message.value] else []
    {
      if bus.next == |bus.line.frames| {
        return Blocked;
      }
      ghost var from := bus.next;
      KeptGrows(bus.line.frames, from, from, blacklistIds);
      var m := bus.RecvBlocking();
      r := Returned(if m.arbitrationId !in blacklistIds then Some(m) else None);
    }

    /**
     The first frame that is not blacklisted, or None when the time is up: whatever
     else was delivered is blacklisted. Takes less than twice the timeout.
     */
    method ReceiveWithin(timeout: real) returns (m: Option<CanMessage>)
      requires bus != null && bus.Valid()
      modifies bus
      ensures bus.Valid() && bus.next >= old(bus.next)
      ensures Delivered(old(bus.next)) == if m.Some? then [m.value] else []
      ensures m.Some? ==> bus.next > old(bus.next) && m.value == bus.line.frames[bus.next - 1]
      ensures forall i :: old(bus.next) <= i < bus.next ==> bus.line.times[i] <= bus.now
      ensures timeout > 0.0 ==> old(bus.now) <= bus.now < old(bus.now) + 2.0 * timeout
      ensures timeout <= 0.0 ==> m == None && bus.now == old(bus.now) && bus.next == old(bus.next)
      ensures m.None? ==> bus.now >= old(bus.now) + timeout
      ensures bus.line.Prompt() ==> bus.now == old(bus.now) || bus.PendingFrom(bus.now)
      ensures Wait(m, bus.next, bus.now) == Waits(bus.line, blacklistIds, old(bus.now), timeout, old(bus.next), old(bus.now))
    {
      ghost var from, start := bus.next, bus.now;
      var timePast := 0.0;
      var startTime := bus.now;
      assert bus.line.frames[from..from] == [];
      assert Kept(bus.line.frames[from..from], blacklistIds) == [];
      assert Receiving(bus.line, timeout, from, start, from, start);
      hide WaitOnce, Waits, Kept;
      while timePast < timeout
        invariant bus.Valid() && bus.next >= from && timePast == bus.now - startTime
        invariant Receiving(bus.line, timeout, from, start, bus.next, bus.now)
        invariant Kept(bus.line.frames[from..bus.next], blacklistIds) == []
        invariant Waits(bus.line, blacklistIds, start, timeout, bus.next, bus.now)
               == Waits(bus.line, blacklistIds, start, timeout, from, start)
        decreases |bus.line.frames| - bus.next, if timePast < timeout then 1 else 0
      {
        ghost var seen, before := bus.next, bus.now;
        WaitsStep(bus.line, blacklistIds, start, timeout, seen, before);
        var received := bus.Recv(timeout);
        ReceivingGoesOn(bus.line, timeout, from, start, seen, before, Wait(received, bus.next, bus.now));
        if received.Some? {
          KeptGrows(bus.line.frames, from, seen, blacklistIds);
          if received.value.arbitrationId !in blacklistIds {
            return received;
          }
        }
        timePast := bus.now - startTime;
      }
      WaitsEnd(bus.line, blacklistIds, start, timeout, bus.next, bus.now);
      m := None;
    }

    /** A missing or zero timeout means to wait for one frame. */
    method Receive(timeout: Option<real>) returns (r: Reception)
      requires bus != null ==> bus.Valid()
      modifies bus
      ensures r == NotOpen <==> bus == null
      ensures bus != null ==> bus.Valid() && bus.next >= old(bus.next)
      ensures r == Blocked ==> (timeout == None || timeout == Some(0.0)) && old(bus.next) == |bus.line.frames|
      ensures r.Returned? ==> Delivered(old(bus.next)) == if r.message.Some? then [r.message.value] else []
      ensures bus != null && (timeout == None || timeout == Some(0.0)) && old(bus.next) == |bus.line.frames| ==> r == Blocked
      ensures r.Returned? && (timeout == None || timeout == Some(0.0)) ==> bus.next == old(bus.next) + 1
      ensures bus != null && timeout.Some? && timeout.value < 0.0 ==>
                r == Returned(None) && bus.next == old(bus.next) && bus.now == old(bus.now)
      ensures r.Returned? && timeout.Some? && timeout.value > 0.0 ==>
                if r.message.Some? then bus.next > old(bus.next) && r.message.value == bus.line.frames[bus.next - 1]
                else bus.now >= old(bus.now) + timeout.value
      ensures r.Returned? && timeout.Some? && timeout.value > 0.0 ==>
                old(bus.now) <= bus.now < old(bus.now) + 2.0 * timeout.value
    {
      if bus == null {
        return NotOpen;
      }
      if timeout == None || timeout == Some(0.0) {
        r := ReceiveOne();
      } else {
        var m := ReceiveWithin(timeout.value);
        r := Returned(m);
      }
    }

    /**
     Exactly the frames delivered during the call that are not blacklisted, in order.
     Takes less than twice the sniff time; when delivery takes no time, no frame that
     arrives before the sniff time ends is missed.
     */
    method Sniff(sniffTime: real) returns (r: Result<seq<CanMessage>, CanError>)
      requires bus != null ==> bus.Valid()
      modifies bus
      ensures r.Err? <==> bus == null
      ensures r.Err? ==> r.error == HasNotBeenOpened
      ensures r.Ok? ==> bus.Valid() && bus.next >= old(bus.next) && r.value == Delivered(old(bus.next))
      ensures r.Ok? && sniffTime > 0.0 ==> old(bus.now) + sniffTime <= bus.now < old(bus.now) + 2.0 * sniffTime
      ensures r.Ok? && sniffTime <= 0.0 ==> bus.now == old(bus.now) && bus.next == old(bus.next)
      ensures r.Ok? ==> forall i :: old(bus.next) <= i < bus.next ==> bus.line.times[i] <= bus.now
      ensures r.Ok? && sniffTime > 0.0 && bus.line.Prompt() ==> bus.PendingFrom(old(bus.now) + sniffTime)
    {
      if bus == null {
        return Err(HasNotBeenOpened);
      }
      ghost var from, start := bus.next, bus.now;
      var messages: seq<CanMessage> := [];
      var startTime := bus.now;
      var timePassed := 0.0;
      assert bus.line.frames[from..from] == [];
      while timePassed < sniffTime
        invariant bus.Valid() && bus.next >= from && timePassed == bus.now - startTime
        invariant bus.now >= start && (sniffTime > 0.0 ==> bus.now < start + 2.0 * sniffTime)
        invariant sniffTime <= 0.0 ==> bus.now == start && bus.next == from
        invariant messages == Kept(bus.line.frames[from..bus.next], blacklistIds)
        invariant forall i :: from <= i < bus.next ==> bus.line.times[i] <= bus.now
        invariant bus.line.Prompt() ==> bus.now == start || bus.PendingFrom(bus.now)
        decreases |bus.line.frames| - bus.next, if timePassed < sniffTime then 1 else 0
      {
        ghost var seen := bus.next;
        var m := ReceiveWithin(sniffTime - timePassed);
        KeptJoins(bus.line.frames, from, seen, bus.next, blacklistIds);
        if m.Some? {
          messages := messages + [m.value];
        }
        timePassed := bus.now - startTime;
      }
      r := Ok(messages);
    }

    method AddToBlacklist(ids: seq<int>)
      modifies this`blacklistIds
      ensures blacklistIds == old(blacklistIds) + set id | id in ids
    {
      for i := 0 to |ids|
        invariant blacklistIds == old(blacklistIds) + set id | id in ids[..i]
      {
        blacklistIds := blacklistIds + {ids[i]};
        assert ids[..i + 1] == ids[..i] + [ids[i]];
      }
      assert ids[..|ids|] == ids;
    }
  }

  // ---- Where documentation and code part -------------------------------------------------------------

  /** Sniffing where nothing arrives brings an empty list, not None; on a closed communicator it raises. */
  method SniffSilence(sniffTime: real) returns (silent: Result<seq<CanMessage>, CanError>, closed: Result<seq<CanMessage>, CanError>)
    ensures silent == Ok([]) && closed == Err(HasNotBeenOpened)
  {
    var bus := new SocketcanBus(Line([], [], NoLag), 0.0);
    var communicator := new CanCommunicatorSocketCan({});
    var answer := communicator.Open(bus);
    silent := communicator.Sniff(sniffTime);
    communicator.Close();
    closed := communicator.Sniff(sniffTime);
  }

  /** Without a timeout, a blacklisted frame ends the wait with None, whatever comes after it. */
  method ReceiveBlacklisted(frame: CanMessage, other: CanMessage) returns (r: Reception)
    ensures r == Returned(None)
  {
    var bus := new SocketcanBus(Line([frame, other], [0.0, 0.0], NoLag), 0.0);
    var communicator := new CanCommunicatorSocketCan({frame.arbitrationId});
    var answer := communicator.Open(bus);
    r := communicator.Receive(None);
    assert bus.line.frames[0..1] == [frame] && [frame][..0] == [];
    assert Kept([frame], {frame.arbitrationId}) == [];
    assert communicator.Delivered(0) == [];
  }
}
