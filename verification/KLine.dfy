/**
 An ECU on the K-line: requests wrapped in an ISO 14230 header, replies unwrapped,
 responsePending frames swallowed, and the ECU re-initialised after silence or a storm of them.
 */
module KLine {
  import opened Prelude
  import opened Codec
  import opened Inner
  import opened Link
  import opened Session
  import opened Channel
  import IsoTpHost

  const MAX_PENDING_MS: nat := 20000

  const PENDING_READ_MS: nat := 3000

  const FLUSH_MAX_FRAMES: nat := 64

  const FLUSH_POLL_MS: nat := 400

  // ---- header ---------------------------------------------------------------

  /** The length sits in the low six bits of the format byte, or in a byte of its own. */
  function BuildFrame(ecu: byte, tester: byte, payload: Bytes): Bytes {
    var n := |payload|;
    if n < 0x40 then [0x80 + n, ecu, tester] + payload else [0x80, ecu, tester, Mod256(n)] + payload
  }

  function StripHeader(frame: Bytes): Result<Bytes, ChanError> {
    if |frame| < 4 then Err(Malformed(MalformedReply))
    else
      var inline := frame[0] % 0x40;
      var hdr, len := if inline == 0 then 4 else 3, if inline == 0 then frame[3] as int else inline;
      Ok(frame[hdr..Min(hdr + len, |frame|)])
  }

  /**
   The header of a request: physical addressing in the top bits, the target before the source, and
   the length in the format byte or behind the addresses.
   */
  lemma HeaderLayout(ecu: byte, tester: byte, payload: Bytes)
    ensures var n, f := |payload|, BuildFrame(ecu, tester, payload);
            && |f| >= 3 && f[0] / 0x40 == 2 && f[1] == ecu && f[2] == tester
            && (n < 0x40 ==> f[0] % 0x40 == n && f[3..] == payload)
            && (n >= 0x40 ==> f[0] % 0x40 == 0 && |f| == n + 4 && f[3] == n % 0x100 && f[4..] == payload)
  {
  }

  /** And of a reply: its payload is what the length allows of the bytes behind the header. */
  lemma StripExactly(frame: Bytes, payload: Bytes)
    ensures StripHeader(frame) == Ok(payload)
            <==> && |frame| >= 4
                 && if frame[0] % 0x40 != 0 then
                      payload <= frame[3..] && |payload| == Min(frame[0] % 0x40, |frame| - 3)
                    else payload <= frame[4..] && |payload| == Min(frame[3], |frame| - 4)
  {
    if |frame| >= 4 {
      var inline := frame[0] % 0x40;
      var hdr, len := if inline == 0 then 4 else 3, if inline == 0 then frame[3] as int else inline;
      var rest, n := frame[hdr..], Min(len, |frame| - hdr);
      assert frame[hdr..hdr + n] == rest[..n];
      assert payload == rest[..n] <==> payload <= rest && |payload| == n;
    }
  }

  /** What is read back of a wrapped payload with anything behind it. */
  lemma StripAfterBuild(ecu: byte, tester: byte, payload: Bytes, more: Bytes)
    requires payload != []
    ensures StripHeader(BuildFrame(ecu, tester, payload) + more)
            == Ok(if |payload| < 0x100 then payload else (payload + more)[..Mod256(|payload|)])
  {
    var n, frame := |payload|, BuildFrame(ecu, tester, payload) + more;
    if n < 0x40 {
      assert frame[0] % 0x40 == n;
      assert frame[3..3 + n] == payload;
    } else {
      assert frame[0] % 0x40 == 0 && frame[3] == Mod256(n);
      assert frame[4..] == payload + more;
      assert n < 0x100 ==> Mod256(n) == n && (payload + more)[..n] == payload;
      assert frame[4..4 + Mod256(n)] == frame[4..][..Mod256(n)];
    }
  }

  /** Wrapping loses nothing for exactly the payloads of 1 to 255 bytes. */
  lemma HeaderRoundTrip(ecu: byte, tester: byte, payload: Bytes)
    ensures StripHeader(BuildFrame(ecu, tester, payload)) == Ok(payload) <==> 1 <= |payload| <= 255
  {
    if payload != [] {
      StripAfterBuild(ecu, tester, payload, []);
      Unit(BuildFrame(ecu, tester, payload));
      Unit(payload);
    }
  }

  /** The channel takes wrapped requests of at most 61 bytes, so a length byte of its own is never sent. */
  lemma SendableRequests(ecu: byte, tester: byte, payload: Bytes)
    ensures WriteRefusal(Iso14230, BuildFrame(ecu, tester, payload)).None? <==> |payload| <= 61
  {
  }

  // ---- requests -------------------------------------------------------------

  const TIMED_OUT: ChanError := Device(Failure.Timeout)

  function Service(r: Reading): Result<Bytes, ChanError> {
    if r.result.Ok? then StripHeader(r.result.value.data) else Err(r.result.error)
  }

  predicate Pending(r: Reading) {
    Service(r).Ok? && IsoTpHost.IsResponsePending(Service(r).value)
  }

  /**
   How the reads of a request decide its result: they go on past pending replies for up to
   MAX_PENDING_MS, with a longer wait once one was seen. The first other reply is the result
   and leaves the ECU alone; a pending one after that time, or silence after pending ones, is
   surfaced and costs one re-initialisation; so does silence from the start, as a timeout.
   */
  ghost predicate Decided(rs: seq<Reading>, timeout: nat, r: Result<Bytes, ChanError>, reinit: bool) {
    && rs != []
    && (forall i :: 0 <= i < |rs| - 1 ==> Pending(rs[i]) && rs[i].ended < rs[0].began + MAX_PENDING_MS)
    && (forall i :: 0 <= i < |rs| ==> rs[i].wait == if i == 0 then timeout else Max(timeout, PENDING_READ_MS))
    && (forall i :: 0 < i < |rs| ==> rs[i].began == rs[i - 1].ended)
    && var last := rs[|rs| - 1];
       && (reinit <==> Service(last) == Err(TIMED_OUT) || Pending(last))
       && (Pending(last) ==> last.ended >= rs[0].began + MAX_PENDING_MS)
       && r == if Service(last) == Err(TIMED_OUT) && |rs| > 1 then Service(rs[|rs| - 2]) else Service(last)
  }

  /**
   A timeout is reported only when no pending reply was seen; a proper reply never costs a
   re-initialisation, a pending one always does; the last read starts within 20 s of the first and
   a pending reply ends the reads only after them; once one was seen each read may take 3 s.
   */
  lemma DecisionMeans(rs: seq<Reading>, timeout: nat, r: Result<Bytes, ChanError>, reinit: bool)
    requires Decided(rs, timeout, r, reinit)
    ensures r == Err(TIMED_OUT) <==> |rs| == 1 && Service(rs[0]) == Err(TIMED_OUT)
    ensures r.Ok? ==> (reinit <==> IsoTpHost.IsResponsePending(r.value))
    ensures r.Err? ==> (reinit <==> r.error == TIMED_OUT)
    ensures rs[|rs| - 1].began < rs[0].began + 20_000
    ensures r.Ok? && reinit && Pending(rs[|rs| - 1]) ==> rs[|rs| - 1].ended >= rs[0].began + 20_000
    ensures rs[0].wait == timeout && forall i :: 0 < i < |rs| ==> rs[i].wait == Max(timeout, 3_000)
  {
    if |rs| > 1 {
      var i := |rs| - 1;
      assert rs[i].began == rs[i - 1].ended;
    }
  }

  /** Two results that the same reads decide are the same: the rule leaves no choice. */
  lemma DecisionIsUnique(
    a: seq<Reading>, b: seq<Reading>, timeout: nat, r: Result<Bytes, ChanError>, s: Result<Bytes, ChanError>,
    i: bool, j: bool)
    requires Decided(a, timeout, r, i) && Decided(b, timeout, s, j) && a <= b
    ensures a == b && r == s && i == j
  {
    if |a| < |b| {
      assert false;
    }
  }

  /** Nothing but pending replies so far, the last of them just now. */
  ghost predicate Waiting(rs: seq<Reading>, start: nat, now: nat, timeout: nat, lastPending: Option<Bytes>) {
    && (forall i :: 0 <= i < |rs| ==> Pending(rs[i]) && rs[i].ended < start + MAX_PENDING_MS)
    && (forall i :: 0 <= i < |rs| ==> rs[i].wait == if i == 0 then timeout else Max(timeout, PENDING_READ_MS))
    && (forall i :: 0 < i < |rs| ==> rs[i].began == rs[i - 1].ended)
    && if rs == [] then lastPending == None && now == start
       else
         var last := rs[|rs| - 1];
         lastPending.Some? && Service(last) == Ok(lastPending.value) && rs[0].began == start && last.ended == now
  }

  function ReadTo(timeout: nat, lastPending: Option<Bytes>): nat {
    if lastPending.Some? then Max(timeout, PENDING_READ_MS) else timeout
  }

  lemma StillWaiting(
    rs: seq<Reading>, next: Reading, start: nat, now: nat, timeout: nat, lastPending: Option<Bytes>)
    requires Waiting(rs, start, now, timeout, lastPending)
    requires next.wait == ReadTo(timeout, lastPending) && next.began == now
    requires Pending(next) && next.ended < start + MAX_PENDING_MS
    ensures Waiting(rs + [next], start, next.ended, timeout, Some(Service(next).value))
  {
    hide Service;
  }

  lemma NowDecided(
    rs: seq<Reading>, next: Reading, start: nat, now: nat, timeout: nat, lastPending: Option<Bytes>,
    r: Result<Bytes, ChanError>, reinit: bool)
    requires Waiting(rs, start, now, timeout, lastPending)
    requires next.wait == ReadTo(timeout, lastPending) && next.began == now
    requires reinit <==> Service(next) == Err(TIMED_OUT) || Pending(next)
    requires Pending(next) ==> next.ended >= start + MAX_PENDING_MS
    requires r == if Service(next) == Err(TIMED_OUT) && lastPending.Some? then Ok(lastPending.value) else Service(next)
    ensures Decided(rs + [next], timeout, r, reinit) && (rs + [next])[0].began == start
  {
    hide Pending, Service;
  }

  lemma NoneYet(start: nat, timeout: nat)
    ensures Waiting([], start, start, timeout, None)
  {
  }

  lemma Appended<T>(before: seq<T>, rs: seq<T>, next: T)
    ensures (before + rs + [next])[|before|..] == rs + [next] && before + rs + [next] == before + (rs + [next])
  {
  }

  predicate BringsFrame(p: Result<Option<RxMsg>, Failure>) {
    p.Ok? && p.value.Some?
  }

  /** `n` frames were taken out of the ring: all 64 allowed, or all there were up to the first poll without one. */
  ghost predicate Flushed(
    before: seq<Result<Option<RxMsg>, Failure>>, after: seq<Result<Option<RxMsg>, Failure>>, n: nat)
  {
    var end := |before| + n;
    && before <= after && n <= FLUSH_MAX_FRAMES && |after| == end + (if n < FLUSH_MAX_FRAMES then 1 else 0)
    && (forall i :: |before| <= i < end ==> BringsFrame(after[i]))
    && (n < FLUSH_MAX_FRAMES ==> !BringsFrame(after[end]))
  }

  class KLineEcu {
    const chan: RawChannel
    const ecu: byte
    const tester: byte

    constructor (chan: RawChannel, ecu: byte, tester: byte)
      ensures this.chan == chan && this.ecu == ecu && this.tester == tester
    {
      this.chan, this.ecu, this.tester := chan, ecu, tester;
    }

    /** Start communication, wrapped for this ECU. */
    function InitInner(): Bytes {
      Build(FastInit(chan.proto, BuildFrame(ecu, tester, [0x81]))).value
    }

    function ClearInner(): Bytes {
      Build(ClearPeriodic(chan.proto)).value
    }

    /** On the K-line the wake-up is startCommunication, 0x81, from the tester to the ECU, by fast init. */
    lemma WakeUpBytes()
      requires chan.proto == Iso14230
      ensures InitInner() == [10, 0, 0x0e, 0x05, 4, 0, 0, 0, 0x81, ecu, tester, 0x81]
      ensures ClearInner() == [6, 0, 0x0e, 0x09, 4, 0, 0, 0]
    {
      hide Build, U16, U32;
      var init: Bytes := [0x81, ecu, tester, 0x81];
      assert BuildFrame(ecu, tester, [0x81]) == init;
      SmallCount(10);
      SmallWord(4);
      InitBytes(Iso14230, init);
      ChannelBytes(Iso14230, ClearPeriodic(Iso14230));
    }

    /** Takes at most 64 frames out of the ring, stopping at the first poll that brings none. */
    method FlushRing() returns (n: nat)
      modifies chan`polls, chan`clock
      ensures chan.clock >= old(chan.clock) && Flushed(old(chan.polls), chan.polls, n)
      ensures n <= 64 && (n < 64 <==> !BringsFrame(chan.polls[|chan.polls| - 1]))
    {
      n := 0;
      ghost var polls0 := chan.polls;
      while n < FLUSH_MAX_FRAMES
        invariant n <= FLUSH_MAX_FRAMES && chan.clock >= old(chan.clock)
        invariant polls0 <= chan.polls && |chan.polls| == |polls0| + n
        invariant forall i :: |polls0| <= i < |polls0| + n ==> BringsFrame(chan.polls[i])
      {
        var p := chan.Poll(FLUSH_POLL_MS);
        if p.Err? || p.value.None? {
          return;
        }
        n := n + 1;
      }
    }

    /** Flushes the ring and wakes the ECU up again, whatever that comes to. */
    method Reinit()
      modifies chan`polls, chan`clock, chan`exchanges
      ensures chan.clock >= old(chan.clock) && OneMore(old(chan.exchanges), chan.exchanges, InitInner())
      ensures exists n: nat :: Flushed(old(chan.polls), chan.polls, n)
    {
      var n := FlushRing();
      var _ := chan.Transact(InitInner());
      assert Flushed(old(chan.polls), chan.polls, n);
    }

    /** The reads of a request, up to its result. */
    method Await(timeout: nat) returns (r: Result<Bytes, ChanError>, ghost reinit: bool)
      modifies chan`polls, chan`clock, chan`exchanges, chan`readings
      ensures old(chan.readings) <= chan.readings
      ensures var rs := chan.readings[|old(chan.readings)|..];
              Decided(rs, timeout, r, reinit) && rs != [] && rs[0].began == old(chan.clock)
      ensures if reinit then OneMore(old(chan.exchanges), chan.exchanges, InitInner())
              else chan.exchanges == old(chan.exchanges)
    {
      var start := chan.clock;
      ghost var before, rs := chan.readings, [];
      var lastPending: Option<Bytes> := None;
      hide Waiting, Decided, OneMore, InitInner, StripHeader, IsoTpHost.IsResponsePending;
      NoneYet(start, timeout);
      while true
        invariant chan.readings == before + rs && chan.clock >= start && chan.exchanges == old(chan.exchanges)
        invariant Waiting(rs, start, chan.clock, timeout, lastPending)
        invariant lastPending.Some? ==> chan.clock < start + MAX_PENDING_MS
        decreases start + MAX_PENDING_MS - chan.clock, if lastPending.Some? then 0 else 1
      {
        var readTo := ReadTo(timeout, lastPending);
        ghost var began := chan.clock;
        var raw := chan.Read(readTo);
        ghost var next := Reading(readTo, raw, began, chan.clock);
        Appended(before, rs, next);
        if raw.Ok? {
          var resp := StripHeader(raw.value.data);
          if resp.Err? {
            NowDecided(rs, next, start, next.began, timeout, lastPending, resp, false);
            return Err(resp.error), false;
          }
          if !IsoTpHost.IsResponsePending(resp.value) {
            NowDecided(rs, next, start, next.began, timeout, lastPending, resp, false);
            return resp, false;
          }
          if chan.clock - start >= MAX_PENDING_MS {
            NowDecided(rs, next, start, next.began, timeout, lastPending, resp, true);
            Reinit();
            return resp, true;
          }
          StillWaiting(rs, next, start, next.began, timeout, lastPending);
          lastPending, rs := Some(resp.value), rs + [next];
        } else if raw.error == TIMED_OUT {
          r, reinit := if lastPending.Some? then Ok(lastPending.value) else Err(raw.error), true;
          NowDecided(rs, next, start, next.began, timeout, lastPending, r, true);
          Reinit();
          return;
        } else {
          NowDecided(rs, next, start, next.began, timeout, lastPending, Err(raw.error), false);
          return Err(raw.error), false;
        }
      }
    }

    /**
     One request: the periodic messages cleared, the wrapped request written if the channel
     takes it, and then the reads that decide. A failure of the first two is the result.
     */
    method Request(req: Bytes, timeout: nat) returns (r: Result<Bytes, ChanError>, ghost reinit: bool)
      requires chan.proto == Iso14230
      modifies chan`polls, chan`clock, chan`exchanges, chan`readings
      ensures old(chan.readings) <= chan.readings
      ensures var rs := chan.readings[|old(chan.readings)|..];
              if rs == [] then r.Err? && !reinit
              else Decided(rs, timeout, r, reinit) && rs[0].began >= old(chan.clock)
      ensures old(chan.exchanges) < chan.exchanges && chan.exchanges[|old(chan.exchanges)|].inner == ClearInner()
      ensures var n := |old(chan.exchanges)|;
              var cleared := Outcome(chan.exchanges[n].reply, IOCTL);
              if cleared.Err? then
                |chan.exchanges| == n + 1 && r == Err(cleared.error) && chan.readings == old(chan.readings)
              else if |req| > 61 then |chan.exchanges| == n + 1 && r.Err? && chan.readings == old(chan.readings)
              else
                && |chan.exchanges| > n + 1
                && var written := Outcome(chan.exchanges[n + 1].reply, WRITE_MSG);
                   if written.Err? then r == Err(written.error) && chan.readings == old(chan.readings)
                   else chan.readings != old(chan.readings)
      ensures chan.readings != old(chan.readings) ==>
                && |chan.exchanges| == |old(chan.exchanges)| + 2 + (if reinit then 1 else 0)
                && chan.exchanges[|old(chan.exchanges)| + 1].inner
                   == Build(WriteMsg(Iso14230, 0, BuildFrame(ecu, tester, req))).value
                && (reinit ==> chan.exchanges[|chan.exchanges| - 1].inner == InitInner())
    {
      reinit := false;
      SendableRequests(ecu, tester, req);
      hide WriteRefusal, Build, BuildFrame, Outcome, Decided;
      var cleared := chan.TransactStatus(ClearInner(), IOCTL);
      if cleared.Err? {
        return Err(cleared.error), false;
      }
      var written := chan.Write(0, BuildFrame(ecu, tester, req));
      if written.Err? {
        return Err(written.error), false;
      }
      r, reinit := Await(timeout);
    }
  }
}
