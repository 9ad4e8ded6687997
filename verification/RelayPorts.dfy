/** Port allocation and the session table of the media relay manager. */
module RelayPorts {
  import opened Words
  import opened Wrappers

  /** One allocation: the port handed out, if any, and the new value of the cursor. The cursor is a 16-bit
      atomic whose increments wrap around. */
  function Allocate(start: u16, end: u16, next: u16): (Option<u16>, u16) {
    var port := if next >= end then start else next;
    if port < end then (Some(port), (port + 2) % 0x1_0000) else (None, start)
  }

  /** The cursor after n successful allocations by one caller at a time. */
  function Cursor(start: u16, end: u16, n: nat): u16 {
    if n == 0 then start else Allocate(start, end, Cursor(start, end, n - 1)).1
  }

  /** The n-th port handed out. */
  function Handed(start: u16, end: u16, n: nat): Option<u16> {
    Allocate(start, end, Cursor(start, end, n)).0
  }

  /** The configuration check: an even start, not above the end. */
  predicate ValidRange(start: u16, end: u16) { start % 2 == 0 && start <= end }

  /** How many ports one sweep of the range hands out. */
  function Sweep(start: u16, end: u16): nat
    requires start <= end
  {
    (end - start + 1) / 2
  }

  /** The place of the n-th allocation in its sweep, counting 0, 1, ..., k - 1 and around again. */
  function Place(k: nat, n: nat): (p: nat)
    requires k > 0
    ensures p < k
  {
    if n == 0 then 0 else if Place(k, n - 1) == k - 1 then 0 else Place(k, n - 1) + 1
  }

  lemma {:induction false} PlaceAhead(k: nat, n: nat, d: nat)
    requires d <= k && k > 0
    ensures Place(k, n + d) == if Place(k, n) + d < k then Place(k, n) + d else Place(k, n) + d - k
  {
    if d > 0 {
      PlaceAhead(k, n, d - 1);
    }
  }

  /** Round robin: every port is even and in the range, and successive ones count around it. */
  lemma {:induction false} RoundRobin(start: u16, end: u16, n: nat)
    requires ValidRange(start, end) && start < end < 0xFFFF
    ensures var port := start + 2 * Place(Sweep(start, end), n);
      && port < end
      && Handed(start, end, n) == Some(port)
      && Cursor(start, end, n + 1) == port + 2
  {
    var k := Sweep(start, end);
    assert end <= start + 2 * k <= end + 1;
    if n > 0 {
      RoundRobin(start, end, n - 1);
      assert Cursor(start, end, n) == start + 2 * Place(k, n - 1) + 2;
      assert Place(k, n) == if Place(k, n - 1) == k - 1 then 0 else Place(k, n - 1) + 1;
      hide Place, Sweep;
    }
  }

  /** Allocations less than a sweep apart differ; a full sweep later the port comes round again, in use or not. */
  lemma SamePortAfterOneSweep(start: u16, end: u16, n: nat, d: nat)
    requires ValidRange(start, end) && start < end < 0xFFFF && 0 < d <= Sweep(start, end)
    ensures Handed(start, end, n) == Handed(start, end, n + d) <==> d == Sweep(start, end)
  {
    RoundRobin(start, end, n);
    RoundRobin(start, end, n + d);
    PlaceAhead(Sweep(start, end), n, d);
  }

  /** The two ports of the n-th session are not handed out again while the next floor((K - 2) / 2) sessions are made. */
  lemma SessionPortsNotReused(start: u16, end: u16, n: nat, m: nat)
    requires ValidRange(start, end) && start < end < 0xFFFF
    requires n < m && 2 * (m - n) <= Sweep(start, end) - 2
    ensures Handed(start, end, 2 * n) != Handed(start, end, 2 * n + 1)
    ensures Handed(start, end, 2 * m) !in {Handed(start, end, 2 * n), Handed(start, end, 2 * n + 1)}
    ensures Handed(start, end, 2 * m + 1) !in {Handed(start, end, 2 * n), Handed(start, end, 2 * n + 1)}
  {
    var gap := 2 * (m - n);
    SamePortAfterOneSweep(start, end, 2 * n, 1);
    SamePortAfterOneSweep(start, end, 2 * n, gap);
    SamePortAfterOneSweep(start, end, 2 * n, gap + 1);
    SamePortAfterOneSweep(start, end, 2 * n + 1, gap - 1);
    SamePortAfterOneSweep(start, end, 2 * n + 1, gap);
  }

  lemma {:induction false} CursorBeforeWrap(start: u16, n: nat)
    requires start % 2 == 0 && start + 2 * n <= 0x1_0000
    ensures Cursor(start, 0xFFFF, n) == (start + 2 * n) % 0x1_0000
  {
    if n > 0 {
      CursorBeforeWrap(start, n - 1);
      assert Cursor(start, 0xFFFF, n - 1) == start + 2 * (n - 1) < 0xFFFF;
    }
  }

  predicate InRange(start: u16, end: u16, port: Option<u16>) {
    port.Some? && port.value % 2 == 0 && start <= port.value < end
  }

  /** Every port handed out is even and inside the range, for ever, exactly when the range does not end at 65535 or
      starts at 0: there the cursor wraps to 0 without ever reaching the end. */
  lemma PortsStayInRangeExactly(start: u16, end: u16)
    requires ValidRange(start, end) && start < end
    ensures (forall n: nat :: InRange(start, end, Handed(start, end, n))) <==> end < 0xFFFF || start == 0
  {
    if end < 0xFFFF {
      forall n: nat ensures InRange(start, end, Handed(start, end, n)) {
        RoundRobin(start, end, n);
      }
    } else if start == 0 {
      forall n: nat ensures InRange(0, end, Handed(0, end, n)) {
        FullRangeStaysInside(n);
      }
    } else {
      var n := (0x1_0000 - start) / 2;
      CursorBeforeWrap(start, n);
      assert !InRange(start, end, Handed(start, end, n));
    }
  }

  /** The whole range of even ports: the wrap is where it should be. */
  lemma {:induction false} FullRangeStaysInside(n: nat)
    ensures Cursor(0, 0xFFFF, n) % 2 == 0 && Handed(0, 0xFFFF, n) == Some(Cursor(0, 0xFFFF, n))
  {
    if n > 0 {
      FullRangeStaysInside(n - 1);
    }
  }

  datatype RelaySession = RelaySession(sessionId: string, callerPort: u16, calleePort: u16)

  class MediaRelayManager {
    const portStart: u16
    const portEnd: u16
    var nextPort: u16
    var sessions: map<string, RelaySession>
    var shutdownSenders: set<string>
    /** How many ports have been handed out. */
    ghost var handed: nat

    ghost predicate Valid()
      reads this
    {
      ValidRange(portStart, portEnd) && nextPort == Cursor(portStart, portEnd, handed) && nextPort % 2 == 0
      && (portStart == portEnd ==> handed == 0)
    }

    constructor (portStart: u16, portEnd: u16)
      requires ValidRange(portStart, portEnd)
      ensures Valid() && handed == 0 && sessions == map[] && shutdownSenders == {}
      ensures this.portStart == portStart && this.portEnd == portEnd
    {
      this.portStart, this.portEnd, nextPort := portStart, portEnd, portStart;
      sessions, shutdownSenders, handed := map[], {}, 0;
    }

    method AllocatePortPair() returns (r: Option<u16>)
      requires Valid()
      modifies `nextPort, `handed
      ensures Valid() && r == Handed(portStart, portEnd, old(handed))
      ensures handed == old(handed) + if r.Some? then 1 else 0
    {
      ghost var cursor := nextPort;
      var attempts := 0;
      while true
        invariant attempts <= 3 && nextPort % 2 == 0
        invariant handed == old(handed)
        invariant attempts == 0 ==> nextPort == cursor
        invariant attempts > 0 ==> nextPort == portStart && cursor >= portEnd
        invariant attempts > 1 ==> portStart >= portEnd
        decreases 4 - attempts
      {
        var port := nextPort;
        nextPort := (nextPort + 2) % 0x1_0000;
        if port >= portEnd {
          if nextPort == (port + 2) % 0x1_0000 {
            nextPort := portStart;
          }
          attempts := attempts + 1;
          if attempts > 3 {
            return None;
          }
          continue;
        }
        if port % 2 == 0 {
          handed := handed + 1;
          return Some(port);
        }
      }
    }

    /** An existing session is returned as it is; a new one takes the next two ports. */
    method CreateSession(sessionId: string) returns (r: Option<RelaySession>)
      requires Valid()
      modifies this
      ensures Valid() && shutdownSenders == old(shutdownSenders)
      ensures sessionId in old(sessions) ==>
        r == Some(old(sessions)[sessionId]) && sessions == old(sessions) && handed == old(handed)
      ensures sessionId !in old(sessions) ==>
        var first, second := Handed(portStart, portEnd, old(handed)), Handed(portStart, portEnd, old(handed) + 1);
        r == if first.None? || second.None? then None else Some(RelaySession(sessionId, first.value, second.value))
      ensures sessionId !in old(sessions) && portStart < portEnd < 0xFFFF ==> r.Some? && handed == old(handed) + 2
      ensures r.None? ==> sessions == old(sessions)
      ensures r.Some? && sessionId !in old(sessions) ==> sessions == old(sessions)[sessionId := r.value]
    {
      if sessionId in sessions {
        return Some(sessions[sessionId]);
      }
      if portStart < portEnd < 0xFFFF {
        RoundRobin(portStart, portEnd, handed);
        RoundRobin(portStart, portEnd, handed + 1);
      }
      var callerPort := AllocatePortPair();
      if callerPort.None? {
        return None;
      }
      var calleePort := AllocatePortPair();
      if calleePort.None? {
        return None;
      }
      var session := RelaySession(sessionId, callerPort.value, calleePort.value);
      sessions := sessions[sessionId := session];
      return Some(session);
    }

    method RegisterShutdown(sessionId: string)
      modifies `shutdownSenders
      ensures shutdownSenders == old(shutdownSenders) + {sessionId}
    {
      shutdownSenders := shutdownSenders + {sessionId};
    }

    /** Drops the stop sender (which stops the relay task) and then the session. */
    method RemoveSession(sessionId: string) returns (r: Option<RelaySession>)
      modifies `shutdownSenders, `sessions
      ensures shutdownSenders == old(shutdownSenders) - {sessionId}
      ensures sessions == old(sessions) - {sessionId}
      ensures r == if sessionId in old(sessions) then Some(old(sessions)[sessionId]) else None
    {
      shutdownSenders := shutdownSenders - {sessionId};
      r := if sessionId in sessions then Some(sessions[sessionId]) else None;
      sessions := sessions - {sessionId};
    }
  }
}
