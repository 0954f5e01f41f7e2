/**
 The host drivers by the messages on the bus: which of them reach a machine, what all others
 change, and what the bytes of the next one decide. Nothing here refers to how the model sorts
 messages or reads flow control.
 */
module IsoTpWire {
  import opened Prelude
  import opened IsoTpFrames
  import opened IsoTpSteps
  import opened IsoTpHost
  import opened IsoTpTraffic
  import opened IsoTpSendRuns
  import opened IsoTpRules
  import T = IsoTpTransmit
  import R = IsoTpReceive

  /** A data message (NOT_DATA, bit 1, clear) with the peer's identifier in front and the address byte behind that. */
  predicate Brings(cfg: HostCfg, r: Reply, f: Bytes) {
    && r.Message? && r.msg.rxStatus % 4 < 2 && r.msg.data == cfg.rxId + f
    && f != [] && (cfg.ext.Some? ==> f[0] == cfg.ext.value)
  }

  /** No message, or one that has another identifier, an indication flag, no frame, or another address byte. */
  predicate Foreign(cfg: HostCfg, r: Reply) {
    || r.Quiet?
    || (r.Message? && var data := r.msg.data;
                      || r.msg.rxStatus % 4 >= 2 || |data| <= 4 || data[..4] != cfg.rxId
                      || (cfg.ext.Some? && data[4] != cfg.ext.value))
  }

  /** Every poll fails, or is foreign, or brings a frame, and then one frame only. */
  lemma Sorted(cfg: HostCfg, r: Reply)
    requires cfg.Valid()
    ensures Foreign(cfg, r) <==> !r.Broken? && !cfg.Mine(r)
    ensures cfg.Mine(r) ==> !r.Broken?
    ensures forall f :: Brings(cfg, r, f) <==> cfg.Mine(r) && f == Body(r)
  {
    if r.Message? && |r.msg.data| > 4 {
      assert r.msg.data == r.msg.data[..4] + r.msg.data[4..];
      assert r.msg.data[4..][0] == r.msg.data[4];
    }
  }

  // ---- messages for others --------------------------------------------------

  /** Two lists of frames of which one begins the other. */
  predicate Comparable(a: seq<Bytes>, b: seq<Bytes>) {
    a <= b || b <= a
  }

  lemma ForeignIsNone(cfg: HostCfg, foreign: seq<Polled>)
    requires cfg.Valid() && forall p :: p in foreign ==> Foreign(cfg, p.reply)
    ensures forall p :: p in foreign ==> !ForReceiver(cfg)(p.reply) && !ForSender(cfg)(p.reply)
  {
    forall p | p in foreign ensures !ForReceiver(cfg)(p.reply) && !ForSender(cfg)(p.reply) {
      Sorted(cfg, p.reply);
    }
  }

  /**
   Messages for others, put in anywhere and at any times, change neither what `host_recv` returns
   nor the flow control it sends, unless a deadline passes; and then only how far it got.
   */
  lemma RecvUntouched(
    cfg: HostCfg, x: Setting, timeout: Time, a: seq<Polled>, foreign: seq<Polled>, b: seq<Polled>)
    requires cfg.Valid() && forall p :: p in foreign ==> Foreign(cfg, p.reply)
    ensures var (s, t) := (RecvAfter(cfg, x, timeout, a + b), RecvAfter(cfg, x, timeout, a + foreign + b));
            && Comparable(FramesOf(s.fcs), FramesOf(t.fcs))
            && (!RanOut(s.verdict) && !RanOut(t.verdict) ==>
                  s.verdict == t.verdict && FramesOf(s.fcs) == FramesOf(t.fcs))
            && (!RanOut(s.verdict) ==> FramesOf(t.fcs) <= FramesOf(s.fcs))
  {
    hide RecvAfter, FramesOf, Heeded, RanOut;
    ForeignIsNone(cfg, foreign);
    ForeignAddsNothing(ForReceiver(cfg), a, foreign, b);
    RecvIgnoresForeign(cfg, x, timeout, a + b);
    RecvIgnoresForeign(cfg, x, timeout, a + foreign + b);
  }

  /** And neither what `host_send` sends nor its result, unless N_Bs runs out. */
  lemma SendUntouched(
    cfg: HostCfg, payload: Bytes, x: Setting, a: seq<Polled>, foreign: seq<Polled>, b: seq<Polled>)
    requires cfg.Valid() && Sendable(payload) && forall p :: p in foreign ==> Foreign(cfg, p.reply)
    ensures var (s, t) := (SendAfter(cfg, payload, x, a + b), SendAfter(cfg, payload, x, a + foreign + b));
            && Comparable(FramesOf(s.out), FramesOf(t.out))
            && (!FcRanOut(s.verdict) && !FcRanOut(t.verdict) ==>
                  s.verdict == t.verdict && FramesOf(s.out) == FramesOf(t.out))
            && (!FcRanOut(s.verdict) ==> FramesOf(t.out) <= FramesOf(s.out))
  {
    hide SendAfter, FramesOf, Answered, FcRanOut;
    ForeignIsNone(cfg, foreign);
    ForeignAddsNothing(ForSender(cfg), a, foreign, b);
    SendIgnoresForeign(cfg, payload, x, a + b);
    SendIgnoresForeign(cfg, payload, x, a + foreign + b);
  }

  // ---- receiving ------------------------------------------------------------

  lemma KnownNext(cfg: HostCfg, x: Setting, log: seq<Polled>, p: Polled)
    ensures KnownAfter(cfg, x, log + [p]) == KnowMore(cfg, x.writes, KnownAfter(cfg, x, log), p)
  {
    assert (log + [p])[..|log|] == log;
  }

  /** What the clock alone decides: N_Cr first, and then the caller's time. */
  ghost function ByClock(cfg: HostCfg, k: Known, deadline: Time): Verdict<Bytes> {
    if PeerSilent(cfg, k) then Some(Err(Protocol(CfTimeout)))
    else if k.now >= deadline then Some(Err(TimedOut))
    else None
  }

  /** A message for others is not fed to the receiver, and decides nothing: only the clock does. */
  lemma ForeignDecidesNothing(cfg: HostCfg, x: Setting, timeout: Time, log: seq<Polled>, p: Polled)
    requires cfg.Valid() && RecvAfter(cfg, x, timeout, log).verdict == None && Foreign(cfg, p.reply)
    ensures var (k, next) := (KnownAfter(cfg, x, log), KnownAfter(cfg, x, log + [p]));
            && next == k.(now := k.now + p.took)
            && RecvAfter(cfg, x, timeout, log + [p]).verdict
               == ByClock(cfg, next, x.start + timeout)
  {
    hide RecvAfter, KnownAfter, PeerSilent, HostCfg.Mine, Foreign;
    Sorted(cfg, p.reply);
    KnownNext(cfg, x, log, p);
    assert (log + [p])[..|log|] == log;
    RecvVerdict(cfg, x, timeout, log + [p]);
  }

  /** One frame given to the driver, by what the receiver answers to it. */
  lemma FrameGiven(cfg: HostCfg, w: nat -> Written, s: RecvState, f: Bytes, res: Result<RxEvent, IsoTpError>)
    requires s.rx.Inv(cfg.rxBs) && s.verdict == None && res == RxOnFrame(cfg.Rx(), s.rx, f, s.clock).res
    ensures var next, write := RecvFrame(cfg, w, s, f), w(|s.fcs|);
            match res
            case Err(e) => next.verdict == Some(Err(Protocol(e))) && next.fcs == s.fcs
            case Ok(Done(payload)) => next.verdict == Some(Ok(payload)) && next.fcs == s.fcs
            case Ok(Continue) => next.verdict == None && next.fcs == s.fcs && next.clock == s.clock
            case Ok(SendFc(fc)) =>
              && next.fcs == s.fcs + [Stamp(fc, s.clock)] && next.clock == s.clock + write.took
              && next.verdict == if write.ok then None else Some(Err(Device))
  {
    hide RxOnFrame;
  }

  /**
   A message for this endpoint is fed to the receiver when it comes. What the receiver answers, as
   `IsoTpRules.AnswerExactly` says, is what happens: an error or a payload is the result, a grant
   is written at once, and its failure is the result.
   */
  lemma FrameDecides(cfg: HostCfg, x: Setting, timeout: Time, log: seq<Polled>, p: Polled, f: Bytes)
    requires cfg.Valid() && RecvAfter(cfg, x, timeout, log).verdict == None && Brings(cfg, p.reply, f)
    ensures var (k, next) := (KnownAfter(cfg, x, log), KnownAfter(cfg, x, log + [p]));
            var (s, s') := (RecvAfter(cfg, x, timeout, log), RecvAfter(cfg, x, timeout, log + [p]));
            var at, write := k.now + p.took, x.writes(k.grants);
            && next.fed == k.fed + [R.Arrival(f, at)]
            && match R.Outcome(cfg.Rx(), next.fed).res
               case Err(e) => s'.verdict == Some(Err(Protocol(e))) && s'.fcs == s.fcs
               case Ok(Done(payload)) => s'.verdict == Some(Ok(payload)) && s'.fcs == s.fcs
               case Ok(Continue) =>
                 s'.fcs == s.fcs && next.now == at && s'.verdict == ByClock(cfg, next, x.start + timeout)
               case Ok(SendFc(fc)) =>
                 && Padded(fc, Lead(cfg.ext) + [0x30, cfg.rxBs, cfg.rxStmin], cfg.padding)
                 && s'.fcs == s.fcs + [Stamp(fc, at)] && next.now == at + write.took
                 && s'.verdict == if write.ok then ByClock(cfg, next, x.start + timeout) else Some(Err(Device))
  {
    hide RecvAfter, KnownAfter, HostCfg.Mine, Brings, RxOnFrame, R.After, R.Outcome, RecvFrame, PeerSilent,
         Padded, FlowControl;
    Sorted(cfg, p.reply);
    var k, s := KnownAfter(cfg, x, log), RecvAfter(cfg, x, timeout, log);
    KnownNext(cfg, x, log, p);
    RecvTracks(cfg, x, timeout, log);
    RecvNext(cfg, x, timeout, log, s, p);
    FedOnce(cfg, k, R.Arrival(f, k.now + p.took));
    var res := R.Outcome(cfg.Rx(), k.fed + [R.Arrival(f, k.now + p.took)]).res;
    FrameGiven(cfg, x.writes, s.(clock := s.clock + p.took), f, res);
    assert (log + [p])[..|log|] == log;
    RecvVerdict(cfg, x, timeout, log + [p]);
    GrantBytes(cfg.Rx());
  }

  // ---- sending --------------------------------------------------------------

  predicate OnlyPolls(calls: seq<T.Input>) {
    forall i :: 0 <= i < |calls| ==> calls[i].Poll?
  }

  lemma {:induction false} DrivePolls(t: Tx, clock: Time, w: nat -> Written)
    requires t.Inv()
    ensures OnlyPolls(DriveCalls(t, clock, w))
    decreases t.cfg.Total() - t.sent, TimeLeft(t, clock)
  {
    hide FrameAt, FrameCount;
    var n := TxNext(t, clock);
    if n.res.Ok? && n.res.value.WaitUntil? {
      DrivePolls(n.tx, Max(clock, n.res.value.until), w);
    } else if n.res.Ok? && n.res.value.Send? && w(t.sent).ok {
      DrivePolls(n.tx, clock + w(t.sent).took, w);
    }
  }

  /** Events that a poll can bring. */
  predicate Unasked(e: T.Event) {
    e.Sent? || (e.Failed? && e.error == FcTimeout)
  }

  /** `later` goes on where `trace` ends, with nothing but frames sent and timeouts. */
  predicate GoesOnUnasked(trace: seq<T.Event>, later: seq<T.Event>) {
    trace <= later && forall i :: |trace| <= i < |later| ==> Unasked(later[i])
  }

  lemma {:induction false} PollsAdd(c: TxCfg, ins: seq<T.Input>, calls: seq<T.Input>)
    requires c.Valid() && OnlyPolls(calls)
    ensures GoesOnUnasked(T.RunFrom(c, ins).trace, T.RunFrom(c, ins + calls).trace)
  {
    hide T.RunFrom, FrameAt, FrameCount;
    if calls == [] {
      Unit(ins);
    } else {
      var init, last := calls[..|calls| - 1], calls[|calls| - 1];
      PollsAdd(c, ins, init);
      assert ins + calls == ins + init + [last];
      T.RunStep(c, ins + init, last);
    }
  }

  /** Driving can end with one error of the protocol only. */
  lemma {:induction false} DriveEnds(t: Tx, clock: Time, w: nat -> Written)
    requires t.Inv()
    ensures var v := Drive(t, clock, w).verdict;
            v.Some? && v.value.Err? && v.value.error.Protocol? ==> v.value.error.error == FcTimeout
    decreases t.cfg.Total() - t.sent, TimeLeft(t, clock)
  {
    hide FrameAt, FrameCount, Drive;
    DriveStep(t, clock, w);
    var n := TxNext(t, clock);
    if n.res.Ok? && n.res.value.WaitUntil? {
      DriveEnds(n.tx, Max(clock, n.res.value.until), w);
    } else if n.res.Ok? && n.res.value.Send? && w(t.sent).ok {
      DriveEnds(n.tx, clock + w(t.sent).took, w);
    }
  }

  /** After its result a send does nothing more. */
  lemma {:induction false} SendIsOver(cfg: HostCfg, payload: Bytes, x: Setting, log: seq<Polled>, more: seq<Polled>)
    requires Sendable(payload) && SendAfter(cfg, payload, x, log).verdict.Some?
    ensures SendAfter(cfg, payload, x, log + more) == SendAfter(cfg, payload, x, log)
  {
    if more == [] {
      Unit(log);
    } else {
      SendIsOver(cfg, payload, x, log, more[..|more| - 1]);
      assert (log + more)[..|log + more| - 1] == log + more[..|more| - 1];
    }
  }

  lemma FirstAdded(past: seq<T.Event>, step: seq<T.Event>, later: seq<T.Event>)
    requires |step| <= 1 && GoesOnUnasked(past + step, later)
    ensures forall e :: !Unasked(e) ==> (past + [e] <= later <==> past + step == past + [e])
  {
    forall e | !Unasked(e) ensures past + [e] <= later <==> past + step == past + [e] {
      assert (past + [e])[|past|] == e;
      if step == [] {
        Unit(past);
      } else {
        assert later[|past|] == (past + step)[|past|] == step[0];
      }
    }
  }

  /** A frame given to a waiting sender and then driven on: what it adds to the run, by its bytes. */
  lemma GivenThenDriven(c: TxCfg, ins: seq<T.Input>, f: Bytes, now: Time, calls: seq<T.Input>)
    requires c.Valid() && OnlyPolls(calls) && T.BlockOver(c, T.RunFrom(c, ins).trace)
    ensures var past, later := T.RunFrom(c, ins).trace, T.RunFrom(c, ins + [T.Recv(f, now)] + calls).trace;
            && (forall bs, stmin ::
                  past + [T.Granted(bs, stmin, now)] <= later <==> Lead(c.addr) + [0x30, bs, stmin] <= f)
            && (past + [T.Waited(now)] <= later
                <==> HasStatus(c.addr, f, 1) && Whole(c.addr, f) && (WaitsHeard(past) + 1) % 256 <= c.wftMax as int)
  {
    hide T.RunFrom, T.BlockOver, T.Step, HasStatus, Whole, Lead, WaitsHeard, T.Coupled, T.EventOk, GoesOnUnasked;
    var before := T.RunFrom(c, ins);
    var step := T.Step(before.tx, T.Recv(f, now)).trace;
    ReceivedExactly(c, ins, f, now);
    TracesTracked(c, ins);
    T.StepCoupled(before.tx, before.trace, T.Recv(f, now));
    T.RunStep(c, ins, T.Recv(f, now));
    PollsAdd(c, ins + [T.Recv(f, now)], calls);
    FirstAdded(before.trace, step, T.RunFrom(c, ins + [T.Recv(f, now)] + calls).trace);
  }

  /** What a send does with a frame that it is brought. */
  lemma FrameTaken(cfg: HostCfg, w: nat -> Written, s: SendState, p: Polled, f: Bytes)
    requires cfg.Valid() && s.Inv() && Brings(cfg, p.reply, f)
    ensures var now := s.clock + p.took;
            var fed := TxOnFrame(s.t, f, now);
            && PollCalls(cfg, w, s, p)
               == [T.Recv(f, now)] + (if fed.res.Err? then [] else DriveCalls(fed.tx, now, w))
            && SendPoll(cfg, w, s, p)
               == if fed.res.Err? then s.(t := fed.tx, clock := now, verdict := Some(Err(Protocol(fed.res.error))))
                  else Then(s, Drive(fed.tx, now, w))
  {
    hide Brings, HostCfg.Mine, Body, Drive, DriveCalls, TxOnFrame;
    Sorted(cfg, p.reply);
  }

  lemma CallsInStep(cfg: HostCfg, payload: Bytes, x: Setting, log: seq<Polled>, p: Polled)
    requires Sendable(payload) && SendAfter(cfg, payload, x, log).verdict == None
    ensures SendCalls(cfg, payload, x, log + [p])
            == SendCalls(cfg, payload, x, log) + PollCalls(cfg, x.writes, SendAfter(cfg, payload, x, log), p)
  {
    hide SendAfter, PollCalls;
    assert (log + [p])[..|log|] == log;
  }

  /** The calls and the state after one more poll that brings a frame. */
  lemma OnePollMore(cfg: HostCfg, payload: Bytes, x: Setting, log: seq<Polled>, p: Polled, f: Bytes)
    requires cfg.Valid() && Sendable(payload) && SendAfter(cfg, payload, x, log).verdict == None
    requires Brings(cfg, p.reply, f)
    ensures var (s, s') := (SendAfter(cfg, payload, x, log), SendAfter(cfg, payload, x, log + [p]));
            var calls, now := SendCalls(cfg, payload, x, log), s.clock + p.took;
            var fed := TxOnFrame(s.t, f, now);
            var drive := if fed.res.Err? then [] else DriveCalls(fed.tx, now, x.writes);
            && SendCalls(cfg, payload, x, log + [p]) == calls + [T.Recv(f, now)] + drive
            && s' == if fed.res.Err? then s.(t := fed.tx, clock := now, verdict := Some(Err(Protocol(fed.res.error))))
                     else Then(s, Drive(fed.tx, now, x.writes))
  {
    hide Brings, SendAfter, SendCalls, PollCalls, SendPoll, Drive, DriveCalls, TxOnFrame;
    var s := SendAfter(cfg, payload, x, log);
    var now := s.clock + p.took;
    var fed := TxOnFrame(s.t, f, now);
    FrameTaken(cfg, x.writes, s, p, f);
    CallsInStep(cfg, payload, x, log, p);
    PollInStep(cfg, payload, x, log, s, p);
    Assoc(SendCalls(cfg, payload, x, log), [T.Recv(f, now)],
          if fed.res.Err? then [] else DriveCalls(fed.tx, now, x.writes));
  }

  lemma ItWaits(cfg: HostCfg, payload: Bytes, x: Setting, log: seq<Polled>)
    requires Sendable(payload) && SendAfter(cfg, payload, x, log).verdict == None
    ensures var s, r := SendAfter(cfg, payload, x, log), RunOf(cfg, payload, x, log);
            && r.tx == s.t && s.t.phase.AwaitFc? && T.BlockOver(cfg.Tx(payload), r.trace)
            && s.t.phase.deadline == T.LastArmed(r.trace) + cfg.nBs
  {
    hide T.RunFrom, SendAfter, SendCalls, T.BlockOver, T.LastArmed, Stamps, Tells, T.TraceOk;
    SendObeys(cfg, payload, x, log);
    TracesTracked(cfg.Tx(payload), SendCalls(cfg, payload, x, log));
    Waiting(RunOf(cfg, payload, x, log).tx, RunOf(cfg, payload, x, log).trace);
  }

  /** The grants and WAITs in the run of a send are, byte for byte, those that came for it while it was waiting. */
  lemma GrantsExactly(cfg: HostCfg, payload: Bytes, x: Setting, log: seq<Polled>, p: Polled, f: Bytes)
    requires cfg.Valid() && Sendable(payload) && SendAfter(cfg, payload, x, log).verdict == None
    requires Brings(cfg, p.reply, f)
    ensures var now := SendAfter(cfg, payload, x, log).clock + p.took;
            var past, later := RunOf(cfg, payload, x, log).trace, RunOf(cfg, payload, x, log + [p]).trace;
            && (forall bs, stmin ::
                  past + [T.Granted(bs, stmin, now)] <= later <==> Lead(cfg.ext) + [0x30, bs, stmin] <= f)
            && (past + [T.Waited(now)] <= later
                <==> HasStatus(cfg.ext, f, 1) && Whole(cfg.ext, f) && (WaitsHeard(past) + 1) % 256 <= cfg.wftMax as int)
  {
    hide T.RunFrom, SendAfter, SendCalls, Brings, T.BlockOver, HasStatus, Whole, Lead, WaitsHeard, Drive, DriveCalls,
         TxOnFrame, T.LastArmed;
    var s := SendAfter(cfg, payload, x, log);
    var now := s.clock + p.took;
    var fed := TxOnFrame(s.t, f, now);
    var drive := if fed.res.Err? then [] else DriveCalls(fed.tx, now, x.writes);
    OnePollMore(cfg, payload, x, log, p, f);
    ItWaits(cfg, payload, x, log);
    DrivePolls(fed.tx, now, x.writes);
    GivenThenDriven(cfg.Tx(payload), SendCalls(cfg, payload, x, log), f, now, drive);
  }

  /** How a frame given to a machine fails, in the run and by itself. */
  lemma FailsAlike(c: TxCfg, ins: seq<T.Input>, f: Bytes, now: Time)
    requires c.Valid()
    ensures var run, res := T.RunFrom(c, ins), TxOnFrame(T.RunFrom(c, ins).tx, f, now).res;
            forall e :: res == Err(e) <==> T.RunFrom(c, ins + [T.Recv(f, now)]).trace == run.trace + [T.Failed(e, now)]
  {
    hide T.RunFrom, ParseFc, DecodeStmin, FrameCount, FrameAt;
    var run := T.RunFrom(c, ins);
    T.RunStep(c, ins, T.Recv(f, now));
    OneEvent(run.trace, T.Step(run.tx, T.Recv(f, now)).trace);
  }

  /** The error of the protocol that a send ended in. */
  predicate EndsIn(v: Verdict<()>, e: IsoTpError) {
    v == Some(Err(Protocol(e)))
  }

  /**
   The errors that flow control ends a send in, by the bytes of the frame that came while it was
   waiting: overflow, reserved status, cut short, one WAIT too many. No frame is sent after it,
   whatever else is polled.
   */
  lemma RefusalsExactly(cfg: HostCfg, payload: Bytes, x: Setting, log: seq<Polled>, p: Polled, f: Bytes)
    requires cfg.Valid() && Sendable(payload) && SendAfter(cfg, payload, x, log).verdict == None
    requires Brings(cfg, p.reply, f)
    ensures var (s, s') := (SendAfter(cfg, payload, x, log), SendAfter(cfg, payload, x, log + [p]));
            var a, v, limited := cfg.ext, s'.verdict,
                                 (WaitsHeard(RunOf(cfg, payload, x, log).trace) + 1) % 256 > cfg.wftMax as int;
            && (EndsIn(v, Overflow) <==> HasStatus(a, f, 2) && Whole(a, f))
            && (EndsIn(v, Malformed(ReservedFlowStatus))
                <==> Whole(a, f) && exists status :: 3 <= status && HasStatus(a, f, status))
            && (EndsIn(v, Malformed(ShortFlowControl))
                <==> !Whole(a, f) && exists status :: HasStatus(a, f, status))
            && (EndsIn(v, WaitLimit(cfg.wftMax)) <==> HasStatus(a, f, 1) && Whole(a, f) && limited)
            && (v.Some? && v.value.Err? && v.value.error.Protocol? && v.value.error.error != FcTimeout ==>
                  s'.out == s.out)
            && (v.Some? ==> forall more :: SendAfter(cfg, payload, x, log + [p] + more) == s')
  {
    hide T.RunFrom, SendAfter, SendCalls, Brings, T.BlockOver, HasStatus, Whole, WaitsHeard, Drive, DriveCalls,
         TxOnFrame, T.LastArmed;
    var s, s' := SendAfter(cfg, payload, x, log), SendAfter(cfg, payload, x, log + [p]);
    var now := s.clock + p.took;
    OnePollMore(cfg, payload, x, log, p, f);
    ItWaits(cfg, payload, x, log);
    DriveEnds(TxOnFrame(s.t, f, now).tx, now, x.writes);
    FailsAlike(cfg.Tx(payload), SendCalls(cfg, payload, x, log), f, now);
    ReceivedExactly(cfg.Tx(payload), SendCalls(cfg, payload, x, log), f, now);
    if s'.verdict.Some? {
      forall more ensures SendAfter(cfg, payload, x, log + [p] + more) == s' {
        SendIsOver(cfg, payload, x, log + [p], more);
      }
    }
  }

  /**
   Everything else that is polled leaves a waiting sender as it is, but for the clock: messages for
   others, and frames that are no flow control at all.
   */
  lemma OthersChangeNothing(cfg: HostCfg, payload: Bytes, x: Setting, log: seq<Polled>, p: Polled, f: Bytes)
    requires cfg.Valid() && Sendable(payload) && SendAfter(cfg, payload, x, log).verdict == None
    requires Foreign(cfg, p.reply) || (Brings(cfg, p.reply, f) && forall status :: !HasStatus(cfg.ext, f, status))
    ensures var s, now := SendAfter(cfg, payload, x, log), SendAfter(cfg, payload, x, log).clock + p.took;
            var late := now >= T.LastArmed(RunOf(cfg, payload, x, log).trace) + cfg.nBs;
            SendAfter(cfg, payload, x, log + [p])
            == s.(clock := now, verdict := if late then Some(Err(Protocol(FcTimeout))) else None)
  {
    hide T.RunFrom, SendAfter, SendCalls, Foreign, Brings, T.BlockOver, HasStatus, Drive, ParseFc, T.LastArmed,
         HostCfg.Mine, Body, FrameCount, FrameAt;
    var s := SendAfter(cfg, payload, x, log);
    var now := s.clock + p.took;
    ItWaits(cfg, payload, x, log);
    StaysPut(s.t, now, x.writes);
    PollInStep(cfg, payload, x, log, s, p);
    Sorted(cfg, p.reply);
    FcByBytes(cfg.ext, f);
    Unit(s.out);
  }
}
