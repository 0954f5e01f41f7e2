/**
 `host_send` over whole logs of polls: it is a run of the transmitter, so the rules of
 such runs hold of it, and it ends for every peer exactly when WAITs are limited or there
 is nothing to wait for.
 */
module IsoTpSendRuns {
  import opened Prelude
  import opened IsoTpFrames
  import opened IsoTpSteps
  import opened IsoTpHost
  import T = IsoTpTransmit

  // ---- a send is a run ------------------------------------------------------

  /** The calls that driving makes on the machine. */
  function DriveCalls(t: Tx, clock: Time, w: nat -> Written): seq<T.Input>
    requires t.Inv()
    decreases t.cfg.Total() - t.sent, TimeLeft(t, clock)
  {
    var n := TxNext(t, clock);
    [T.Poll(clock)]
    + if n.res.Err? then []
      else if n.res.value.WaitUntil? then DriveCalls(n.tx, Max(clock, n.res.value.until), w)
      else if n.res.value.Send? && w(t.sent).ok then DriveCalls(n.tx, clock + w(t.sent).took, w)
      else []
  }

  /** The calls that one poll leads to. */
  function PollCalls(cfg: HostCfg, w: nat -> Written, s: SendState, p: Polled): seq<T.Input>
    requires s.Inv()
  {
    var clock := s.clock + p.took;
    if p.reply.Broken? then []
    else if !cfg.Mine(p.reply) then DriveCalls(s.t, clock, w)
    else
      var fed := TxOnFrame(s.t, Body(p.reply), clock);
      [T.Recv(Body(p.reply), clock)] + if fed.res.Err? then [] else DriveCalls(fed.tx, clock, w)
  }

  /** Every call that a send makes on its machine, in order and with its time. */
  function SendCalls(cfg: HostCfg, payload: Bytes, x: Setting, log: seq<Polled>): seq<T.Input>
    requires Sendable(payload)
  {
    if log == [] then DriveCalls(TxInit(cfg.Tx(payload)), x.start, x.writes)
    else
      var before := log[..|log| - 1];
      var s := SendAfter(cfg, payload, x, before);
      SendCalls(cfg, payload, x, before)
      + if s.verdict.Some? then [] else PollCalls(cfg, x.writes, s, log[|log| - 1])
  }

  /** The frames given to the machine are those that came for this endpoint while it was waiting, when they came. */
  function Received(cfg: HostCfg, payload: Bytes, x: Setting, log: seq<Polled>): seq<T.Input>
    requires Sendable(payload)
  {
    if log == [] then []
    else
      var before, p := log[..|log| - 1], log[|log| - 1];
      var s := SendAfter(cfg, payload, x, before);
      Received(cfg, payload, x, before)
      + if s.verdict == None && cfg.Mine(p.reply) then [T.Recv(Body(p.reply), s.clock + p.took)] else []
  }

  function Recvs(ins: seq<T.Input>): seq<T.Input> {
    if ins == [] then []
    else
      var last := ins[|ins| - 1];
      Recvs(ins[..|ins| - 1]) + if last.Recv? then [last] else []
  }

  lemma {:induction false} RecvsAppend(a: seq<T.Input>, b: seq<T.Input>)
    ensures Recvs(a + b) == Recvs(a) + Recvs(b)
  {
    if b == [] {
      Unit(a);
      Unit(Recvs(a));
    } else {
      var init, last := b[..|b| - 1], b[|b| - 1];
      RecvsAppend(a, init);
      assert (a + b)[..|a + b| - 1] == a + init;
      Assoc(Recvs(a), Recvs(init), if last.Recv? then [last] else []);
    }
  }

  lemma RecvsOne(i: T.Input, rest: seq<T.Input>)
    ensures Recvs([i] + rest) == if i.Recv? then [i] + Recvs(rest) else Recvs(rest)
  {
    RecvsAppend([i], rest);
    assert [i][..0] == [];
    Unit(Recvs(rest));
  }

  lemma RecvsNone()
    ensures Recvs([]) == []
  {
  }

  lemma {:induction false} DriveOnlyPolls(t: Tx, clock: Time, w: nat -> Written)
    requires t.Inv()
    ensures Recvs(DriveCalls(t, clock, w)) == []
    decreases t.cfg.Total() - t.sent, TimeLeft(t, clock)
  {
    hide FrameAt, FrameCount, Recvs;
    var n := TxNext(t, clock);
    if n.res.Ok? && n.res.value.WaitUntil? {
      var until := Max(clock, n.res.value.until);
      DriveOnlyPolls(n.tx, until, w);
      RecvsOne(T.Poll(clock), DriveCalls(n.tx, until, w));
    } else if n.res.Ok? && n.res.value.Send? && w(t.sent).ok {
      var later := clock + w(t.sent).took;
      DriveOnlyPolls(n.tx, later, w);
      RecvsOne(T.Poll(clock), DriveCalls(n.tx, later, w));
    } else {
      RecvsNone();
      RecvsOne(T.Poll(clock), []);
    }
  }

  lemma PollReceives(cfg: HostCfg, w: nat -> Written, s: SendState, p: Polled)
    requires s.Inv()
    ensures Recvs(PollCalls(cfg, w, s, p))
            == if cfg.Mine(p.reply) then [T.Recv(Body(p.reply), s.clock + p.took)] else []
  {
    hide DriveCalls, TxOnFrame, Body, Recvs;
    var clock := s.clock + p.took;
    RecvsNone();
    if cfg.Mine(p.reply) {
      var fed := TxOnFrame(s.t, Body(p.reply), clock);
      var rest := if fed.res.Err? then [] else DriveCalls(fed.tx, clock, w);
      if fed.res.Ok? {
        DriveOnlyPolls(fed.tx, clock, w);
      }
      RecvsOne(T.Recv(Body(p.reply), clock), rest);
      Unit([T.Recv(Body(p.reply), clock)]);
    } else if !p.reply.Broken? {
      DriveOnlyPolls(s.t, clock, w);
    }
  }

  lemma {:induction false} SendReceives(cfg: HostCfg, payload: Bytes, x: Setting, log: seq<Polled>)
    requires Sendable(payload)
    ensures Recvs(SendCalls(cfg, payload, x, log)) == Received(cfg, payload, x, log)
  {
    hide PollCalls, DriveCalls, SendAfter, HostCfg.Mine, Body, Recvs;
    if log == [] {
      DriveOnlyPolls(TxInit(cfg.Tx(payload)), x.start, x.writes);
    } else {
      var before, p := log[..|log| - 1], log[|log| - 1];
      var s, calls := SendAfter(cfg, payload, x, before), SendCalls(cfg, payload, x, before);
      SendReceives(cfg, payload, x, before);
      Unit(calls);
      Unit(Received(cfg, payload, x, before));
      if s.verdict == None {
        PollReceives(cfg, x.writes, s, p);
        RecvsAppend(calls, PollCalls(cfg, x.writes, s, p));
      }
    }
  }

  /** The frames of a trace with the moments they were sent. */
  function Stamps(trace: seq<T.Event>): seq<Stamp> {
    if trace == [] then []
    else
      var e := trace[|trace| - 1];
      Stamps(trace[..|trace| - 1]) + if e.Sent? then [Stamp(e.frame, e.at)] else []
  }

  lemma StampsAppend(trace: seq<T.Event>, e: T.Event)
    ensures Stamps(trace + [e]) == Stamps(trace) + if e.Sent? then [Stamp(e.frame, e.at)] else []
  {
    assert (trace + [e])[..|trace|] == trace;
  }

  /** Where a run failed, the loop ended with the same error at that moment; a clean run ended otherwise or goes on. */
  ghost predicate Tells(v: Verdict<()>, clock: Time, trace: seq<T.Event>) {
    if v.Some? && v.value.Err? && v.value.error.Protocol? then
      && trace != []
      && trace[|trace| - 1] == T.Failed(v.value.error.error, clock)
      && T.Clean(trace[..|trace| - 1])
    else T.Clean(trace)
  }

  /** The run is what the loop has done: the machine, the frames with their times, and how it ended. */
  ghost predicate Realizes(r: T.Run, sent: seq<Stamp>, s: SendState) {
    r.tx == s.t && Stamps(r.trace) == sent + s.out && Tells(s.verdict, s.clock, r.trace)
  }

  /** One call that driving makes: nothing happens, or a frame is sent, or N_Bs has run out. */
  lemma NextRuns(c: TxCfg, ins: seq<T.Input>, clock: Time)
    requires c.Valid() && T.Clean(T.RunFrom(c, ins).trace)
    ensures var before, r := T.RunFrom(c, ins), T.RunFrom(c, ins + [T.Poll(clock)]);
            var n := TxNext(before.tx, clock);
            && r.tx == n.tx
            && if n.res.Err? then
                 && Stamps(r.trace) == Stamps(before.trace)
                 && Tells(Some(Err(Protocol(n.res.error))), clock, r.trace)
               else
                 && T.Clean(r.trace)
                 && Stamps(r.trace)
                    == Stamps(before.trace) + if n.res.value.Send? then [Stamp(n.res.value.frame, clock)] else []
  {
    hide T.RunFrom, FrameAt, FrameCount, Stamps, T.Clean;
    var before := T.RunFrom(c, ins);
    var n := TxNext(before.tx, clock);
    T.RunStep(c, ins, T.Poll(clock));
    Unit(before.trace);
    Unit(Stamps(before.trace));
    if n.res.Err? {
      var e := T.Failed(n.res.error, clock);
      StampsAppend(before.trace, e);
      assert (before.trace + [e])[..|before.trace|] == before.trace;
    } else if n.res.value.Send? {
      StampsAppend(before.trace, T.Sent(n.res.value.frame, clock));
      T.Append(before.trace, T.Sent(n.res.value.frame, clock));
    }
  }

  lemma CleanTells(failed: bool, trace: seq<T.Event>, later: Time)
    requires failed || T.Clean(trace)
    ensures !failed ==> forall clock :: Tells(Some(Err(Device)), clock, trace) && Tells(Some(Ok(())), clock, trace)
    ensures !failed ==> forall clock :: Tells(None, clock, trace)
  {
  }

  lemma {:induction false} DriveRuns(c: TxCfg, ins: seq<T.Input>, clock: Time, w: nat -> Written)
    requires c.Valid() && T.Clean(T.RunFrom(c, ins).trace)
    ensures var before := T.RunFrom(c, ins);
            var r := T.RunFrom(c, ins + DriveCalls(before.tx, clock, w));
            Realizes(r, Stamps(before.trace), Drive(before.tx, clock, w))
    decreases c.Total() - T.RunFrom(c, ins).tx.sent, TimeLeft(T.RunFrom(c, ins).tx, clock)
  {
    hide T.RunFrom, FrameAt, FrameCount, Stamps, T.Clean, Tells;
    var before := T.RunFrom(c, ins);
    var t, n, once := before.tx, TxNext(before.tx, clock), ins + [T.Poll(clock)];
    NextRuns(c, ins, clock);
    Unit(Stamps(before.trace));
    if n.res.Ok? && n.res.value.WaitUntil? {
      DriveRuns(c, once, Max(clock, n.res.value.until), w);
      Assoc(ins, [T.Poll(clock)], DriveCalls(n.tx, Max(clock, n.res.value.until), w));
    } else if n.res.Ok? && n.res.value.Send? && w(t.sent).ok {
      var later := clock + w(t.sent).took;
      DriveRuns(c, once, later, w);
      Assoc(ins, [T.Poll(clock)], DriveCalls(n.tx, later, w));
      Assoc(Stamps(before.trace), [Stamp(n.res.value.frame, clock)], Drive(n.tx, later, w).out);
    } else {
      Unit([T.Poll(clock)]);
      CleanTells(n.res.Err?, T.RunFrom(c, once).trace, clock + w(t.sent).took);
    }
  }

  lemma FeedRuns(c: TxCfg, ins: seq<T.Input>, f: Bytes, now: Time)
    requires c.Valid() && T.Clean(T.RunFrom(c, ins).trace)
    ensures var (before, r) := (T.RunFrom(c, ins), T.RunFrom(c, ins + [T.Recv(f, now)]));
            var fed := TxOnFrame(before.tx, f, now);
            && r.tx == fed.tx && Stamps(r.trace) == Stamps(before.trace)
            && if fed.res.Ok? then T.Clean(r.trace) else Tells(Some(Err(Protocol(fed.res.error))), now, r.trace)
  {
    hide T.RunFrom, ParseFc, DecodeStmin, Stamps;
    var before := T.RunFrom(c, ins);
    var step := T.Step(before.tx, T.Recv(f, now));
    T.RunStep(c, ins, T.Recv(f, now));
    if step.trace == [] {
      Unit(before.trace);
    } else {
      var e := step.trace[0];
      assert step.trace == [e] && (before.trace + [e])[..|before.trace|] == before.trace;
      T.Append(before.trace, e);
      StampsAppend(before.trace, e);
      Unit(Stamps(before.trace));
    }
  }

  lemma GoesOn(r: T.Run, s: SendState, next: SendState)
    requires Realizes(r, s.out, next)
    ensures Realizes(r, [], Then(s, next))
  {
    Unit(s.out + next.out);
  }

  lemma StopsThere(r: T.Run, s: SendState, v: Verdict<()>, t: Tx, clock: Time)
    requires r.tx == t && Stamps(r.trace) == s.out && Tells(v, clock, r.trace)
    ensures Realizes(r, [], s.(t := t, clock := clock, verdict := v))
  {
    Unit(s.out);
  }

  lemma SoFar(r: T.Run, s: SendState)
    requires Realizes(r, [], s) && s.verdict == None
    ensures r.tx == s.t && Stamps(r.trace) == s.out && T.Clean(r.trace)
    ensures forall clock :: Tells(Some(Err(Device)), clock, r.trace)
  {
    Unit(s.out);
  }

  lemma PollRuns(c: TxCfg, cfg: HostCfg, w: nat -> Written, ins: seq<T.Input>, s: SendState, p: Polled)
    requires c.Valid() && s.Inv() && Realizes(T.RunFrom(c, ins), [], s) && s.verdict == None
    ensures Realizes(T.RunFrom(c, ins + PollCalls(cfg, w, s, p)), [], SendPoll(cfg, w, s, p))
  {
    hide T.RunFrom, T.Clean, Realizes, Tells, Stamps, Drive, DriveCalls, TxOnFrame, HostCfg.Mine, Body;
    var clock, f := s.clock + p.took, Body(p.reply);
    SoFar(T.RunFrom(c, ins), s);
    Unit(ins);
    if p.reply.Broken? {
      StopsThere(T.RunFrom(c, ins), s, Some(Err(Device)), s.t, clock);
    } else if !cfg.Mine(p.reply) {
      DriveRuns(c, ins, clock, w);
      GoesOn(T.RunFrom(c, ins + DriveCalls(s.t, clock, w)), s, Drive(s.t, clock, w));
    } else {
      var fed, once := TxOnFrame(s.t, f, clock), ins + [T.Recv(f, clock)];
      FeedRuns(c, ins, f, clock);
      if fed.res.Err? {
        Unit([T.Recv(f, clock)]);
        StopsThere(T.RunFrom(c, once), s, Some(Err(Protocol(fed.res.error))), fed.tx, clock);
      } else {
        DriveRuns(c, once, clock, w);
        Assoc(ins, [T.Recv(f, clock)], DriveCalls(fed.tx, clock, w));
        GoesOn(T.RunFrom(c, once + DriveCalls(fed.tx, clock, w)), s, Drive(fed.tx, clock, w));
      }
    }
  }

  lemma StartRuns(c: TxCfg, x: Setting)
    requires c.Valid()
    ensures var t := TxInit(c);
            Realizes(T.RunFrom(c, DriveCalls(t, x.start, x.writes)), [], Drive(t, x.start, x.writes))
  {
    hide Drive, DriveCalls;
    assert T.RunFrom(c, []) == T.Run(TxInit(c), []) && Stamps([]) == [];
    DriveRuns(c, [], x.start, x.writes);
    Unit(DriveCalls(TxInit(c), x.start, x.writes));
  }

  lemma {:induction false} SendRuns(cfg: HostCfg, payload: Bytes, x: Setting, log: seq<Polled>)
    requires Sendable(payload)
    ensures Realizes(T.RunFrom(cfg.Tx(payload), SendCalls(cfg, payload, x, log)), [], SendAfter(cfg, payload, x, log))
  {
    hide Realizes, SendPoll, PollCalls, Drive, DriveCalls, T.RunFrom;
    if log == [] {
      StartRuns(cfg.Tx(payload), x);
    } else {
      var before, p := log[..|log| - 1], log[|log| - 1];
      SendRuns(cfg, payload, x, before);
      Unit(SendCalls(cfg, payload, x, before));
      if SendAfter(cfg, payload, x, before).verdict == None {
        var calls, s := SendCalls(cfg, payload, x, before), SendAfter(cfg, payload, x, before);
        PollRuns(cfg.Tx(payload), cfg, x.writes, calls, s, p);
      }
    }
  }

  /** What the calls of a send come to on the transmitter. */
  function RunOf(cfg: HostCfg, payload: Bytes, x: Setting, log: seq<Polled>): T.Run
    requires Sendable(payload)
  {
    T.RunFrom(cfg.Tx(payload), SendCalls(cfg, payload, x, log))
  }

  /**
   Every send of the host, against any peer, is the run of its own calls: what they receive is
   what was polled for this endpoint, when it was; what they send is what was handed over, when
   it was. That run obeys the rules of the transmitter, and an ISO-TP error ends both at once.
   */
  lemma SendObeys(cfg: HostCfg, payload: Bytes, x: Setting, log: seq<Polled>)
    requires Sendable(payload)
    ensures Recvs(SendCalls(cfg, payload, x, log)) == Received(cfg, payload, x, log)
    ensures var s, r := SendAfter(cfg, payload, x, log), RunOf(cfg, payload, x, log);
            && T.TraceOk(cfg.Tx(payload), r.trace)
            && r.tx == s.t && Stamps(r.trace) == s.out && Tells(s.verdict, s.clock, r.trace)
  {
    hide T.RunFrom, T.TraceOk, T.Coupled, Tells, SendAfter, SendCalls, Recvs, Received, Stamps;
    SendReceives(cfg, payload, x, log);
    SendRuns(cfg, payload, x, log);
    T.TraceSound(cfg.Tx(payload), SendCalls(cfg, payload, x, log));
    Unit(SendAfter(cfg, payload, x, log).out);
  }

  /**
   The ISO-TP errors a send can end in, all of them while a grant is due: FcTimeout with N_Bs
   passed since the last frame was handed over or the last WAIT polled, and WaitLimit with
   exactly the allowed WAITs polled since the last grant.
   */
  lemma SendErrors(cfg: HostCfg, payload: Bytes, x: Setting, log: seq<Polled>)
    requires Sendable(payload)
    requires var v := SendAfter(cfg, payload, x, log).verdict; v.Some? && v.value.Err? && v.value.error.Protocol?
    ensures var s, trace := SendAfter(cfg, payload, x, log), RunOf(cfg, payload, x, log).trace;
            var e := s.verdict.value.error.error;
            && trace != []
            && var past := trace[..|trace| - 1];
               && trace == past + [T.Failed(e, s.clock)] && T.Clean(past)
               && T.BlockOver(cfg.Tx(payload), past)
               && (e == FcTimeout ==> s.clock >= T.LastArmed(past) + cfg.nBs)
               && (e.WaitLimit? ==> T.WaitsSinceGrant(past) == cfg.wftMax < 255)
  {
    hide T.Frames, T.LastArmed, T.WaitsSinceGrant, T.BlockOver, T.Clean, SendAfter, RunOf, Stamps, Recvs, Received,
         SendCalls;
    SendObeys(cfg, payload, x, log);
    var trace := RunOf(cfg, payload, x, log).trace;
    assert T.EventOk(cfg.Tx(payload), trace[..|trace| - 1], trace[|trace| - 1]);
    assert trace[..|trace| - 1] + [trace[|trace| - 1]] == trace;
  }

  // ---- a send ends ----------------------------------------------------------

  /** The first `n` polls of a bus. */
  function FirstPolls(env: nat -> Polled, n: nat): seq<Polled> {
    seq(n, i requires 0 <= i < n => env(i))
  }

  /** Time passes in every poll. */
  ghost predicate Ticks(env: nat -> Polled) {
    forall i: nat :: env(i).took > 0
  }

  ghost predicate Ends(cfg: HostCfg, payload: Bytes, x: Setting, env: nat -> Polled)
    requires Sendable(payload)
  {
    exists n: nat :: SendAfter(cfg, payload, x, FirstPolls(env, n)).verdict.Some?
  }

  predicate IsWait(cfg: HostCfg, r: Reply) {
    cfg.Mine(r) && ParseFc(cfg.ext, Body(r)) == Wait
  }

  /** A bus on which the peer says nothing but WAIT. */
  lemma OnlyWaits(cfg: HostCfg) returns (env: nat -> Polled)
    requires cfg.Valid()
    ensures Ticks(env)
    ensures forall i: nat :: IsWait(cfg, env(i).reply)
  {
    var data := cfg.rxId + (StartFrame(cfg.ext) + [0x31, 0, 0]);
    var p := Polled(1, Message(RxMsg(0, data)));
    assert data[..4] == cfg.rxId && data[4..] == StartFrame(cfg.ext) + [0x31, 0, 0];
    assert cfg.ext.Some? ==> data[4] == cfg.ext.value;
    assert IsWait(cfg, p.reply);
    env := (i: nat) => p;
  }

  lemma StaysPut(t: Tx, now: Time, w: nat -> Written)
    requires t.Inv() && t.phase.AwaitFc?
    ensures Drive(t, now, w)
            == SendState(t, now, [], if now >= t.phase.deadline then Some(Err(Protocol(FcTimeout))) else None)
  {
  }

  lemma FirstFrameWaits(cfg: HostCfg, payload: Bytes, x: Setting)
    requires Sendable(payload) && !Patient(cfg, payload) && x.writes(0).ok && x.writes(0).took < cfg.nBs
    ensures var s := Drive(TxInit(cfg.Tx(payload)), x.start, x.writes);
            s.verdict == None && s.t.sent == 1
  {
    hide FrameAt;
    FrameCountIsExact(|payload|, AddrLen(cfg.ext));
    var n := TxNext(TxInit(cfg.Tx(payload)), x.start);
    StaysPut(n.tx, x.start + x.writes(0).took, x.writes);
  }

  lemma WaitGoesOn(cfg: HostCfg, w: nat -> Written, s: SendState, p: Polled)
    requires s.Inv() && s.verdict == None && s.t.phase.AwaitFc? && IsWait(cfg, p.reply)
    requires s.t.cfg.wftMax == 255 && s.t.cfg.nBs > 0 && s.t.cfg.addr == cfg.ext
    ensures var s' := SendPoll(cfg, w, s, p);
            s'.verdict == None && s'.t.sent == s.t.sent
  {
    hide FrameAt, FrameCount;
    var now := s.clock + p.took;
    var fed := TxOnFrame(s.t, Body(p.reply), now);
    assert fed.res.Ok? && fed.tx.phase == AwaitFc(now + s.t.cfg.nBs);
    StaysPut(fed.tx, now, w);
  }

  /** At a limit of 255 no number of WAITs, at whatever times, ends the wait after the first frame. */
  lemma {:induction false} WaitsForever(cfg: HostCfg, payload: Bytes, x: Setting, log: seq<Polled>)
    requires Sendable(payload) && !Patient(cfg, payload) && x.writes(0).ok && x.writes(0).took < cfg.nBs
    requires forall p :: p in log ==> IsWait(cfg, p.reply)
    ensures var s := SendAfter(cfg, payload, x, log);
            s.verdict == None && s.t.sent == 1
  {
    hide IsWait;
    if log == [] {
      FirstFrameWaits(cfg, payload, x);
    } else {
      assert log[|log| - 1] in log;
      WaitsForever(cfg, payload, x, log[..|log| - 1]);
      WaitGoesOn(cfg, x.writes, SendAfter(cfg, payload, x, log[..|log| - 1]), log[|log| - 1]);
    }
  }

  lemma NeverEnds(cfg: HostCfg, payload: Bytes, x: Setting, env: nat -> Polled)
    requires Sendable(payload) && !Patient(cfg, payload) && x.writes(0).ok && x.writes(0).took < cfg.nBs
    requires forall i: nat :: IsWait(cfg, env(i).reply)
    ensures !Ends(cfg, payload, x, env)
  {
    hide SendAfter, IsWait;
    forall n: nat ensures SendAfter(cfg, payload, x, FirstPolls(env, n)).verdict == None {
      WaitsForever(cfg, payload, x, FirstPolls(env, n));
    }
  }

  // ---- why it ends ----------------------------------------------------------

  lemma FirstFrameEnds(t: Tx, x: Setting)
    requires t.Inv() && t.phase.Start? && (|t.cfg.payload| <= 7 - AddrLen(t.cfg.addr) || t.cfg.nBs == 0)
    ensures Drive(t, x.start, x.writes).verdict.Some?
  {
    hide FrameAt;
    var n, later := TxNext(t, x.start), x.start + x.writes(0).took;
    assert Drive(n.tx, later, x.writes).verdict.Some?;
  }

  lemma {:induction false} EndsAtOnce(cfg: HostCfg, payload: Bytes, x: Setting, log: seq<Polled>)
    requires Sendable(payload) && (|payload| <= 7 - AddrLen(cfg.ext) || cfg.nBs == 0)
    ensures SendAfter(cfg, payload, x, log).verdict.Some?
  {
    if log == [] {
      FirstFrameEnds(TxInit(cfg.Tx(payload)), x);
    } else {
      EndsAtOnce(cfg, payload, x, log[..|log| - 1]);
    }
  }

  /** A wait that goes on is one with a limit, which its WAITs are within. */
  lemma WaitsWithin(cfg: HostCfg, payload: Bytes, x: Setting, log: seq<Polled>)
    requires Sendable(payload) && Patient(cfg, payload) && SendAfter(cfg, payload, x, log).verdict == None
    ensures SendAfter(cfg, payload, x, log).t.waits <= cfg.wftMax < 255
  {
    hide T.RunFrom, SendAfter, SendCalls, Stamps;
    if cfg.wftMax < 255 {
      SendRuns(cfg, payload, x, log);
      T.TraceSound(cfg.Tx(payload), SendCalls(cfg, payload, x, log));
    } else {
      EndsAtOnce(cfg, payload, x, log);
    }
  }

  lemma SmallWait(w: byte)
    ensures w < 255 ==> WrapInc(w) == w + 1
  {
  }

  /** A frame that is no error brings a grant, which lets a frame out, or a WAIT, which counts, or nothing. */
  lemma FedGains(w: nat -> Written, t: Tx, f: Bytes, now: Time)
    requires t.Inv() && t.phase.AwaitFc? && t.waits <= t.cfg.wftMax < 255
    ensures var fed := TxOnFrame(t, f, now);
            fed.res.Ok? && Drive(fed.tx, now, w).verdict == None ==>
              var s := Drive(fed.tx, now, w);
              || t.sent < s.t.sent < t.cfg.Total()
              || (s.t.sent == t.sent && t.waits < s.t.waits <= t.cfg.wftMax)
              || (s.t == t && s.clock == now && now < t.phase.deadline)
  {
    hide FrameAt, FrameCount, DecodeStmin, Segment, ParseFc, FramesOf;
    var fed := TxOnFrame(t, f, now);
    if fed.res.Ok? && fed.tx.phase.Consecutive? {
      if w(fed.tx.sent).ok {
        DriveSegments(TxNext(fed.tx, now).tx, now + w(fed.tx.sent).took, w);
      }
    } else if fed.res.Ok? {
      StaysPut(fed.tx, now, w);
      SmallWait(t.waits);
    }
  }

  /** Every poll that leaves the loop waiting has brought it forward: frames, WAITs, or time. */
  lemma PollGains(cfg: HostCfg, w: nat -> Written, s: SendState, p: Polled)
    requires s.Inv() && s.verdict == None && s.t.phase.AwaitFc? && s.clock < s.t.phase.deadline
    requires s.t.waits <= s.t.cfg.wftMax < 255 && p.took > 0
    ensures var s' := SendPoll(cfg, w, s, p);
            s'.verdict == None ==>
              || s.t.sent < s'.t.sent < s.t.cfg.Total()
              || (s'.t.sent == s.t.sent
                  && (s.t.waits < s'.t.waits <= s.t.cfg.wftMax
                      || (s'.t.waits == s.t.waits && TimeLeft(s'.t, s'.clock) < TimeLeft(s.t, s.clock))))
  {
    hide Drive, TxOnFrame, HostCfg.Mine, Body;
    var now := s.clock + p.took;
    if cfg.Mine(p.reply) {
      FedGains(w, s.t, Body(p.reply), now);
    } else {
      StaysPut(s.t, now, w);
    }
  }

  ghost function FramesToGo(cfg: HostCfg, payload: Bytes, x: Setting, env: nat -> Polled, k: nat): nat
    requires Sendable(payload)
  {
    var s := SendAfter(cfg, payload, x, FirstPolls(env, k));
    if s.verdict.Some? then 0 else 1 + Max(0, s.t.cfg.Total() - s.t.sent)
  }

  ghost function WaitsToGo(cfg: HostCfg, payload: Bytes, x: Setting, env: nat -> Polled, k: nat): nat
    requires Sendable(payload)
  {
    Max(0, cfg.wftMax - SendAfter(cfg, payload, x, FirstPolls(env, k)).t.waits)
  }

  ghost function TimeToGo(cfg: HostCfg, payload: Bytes, x: Setting, env: nat -> Polled, k: nat): nat
    requires Sendable(payload)
  {
    var s := SendAfter(cfg, payload, x, FirstPolls(env, k));
    TimeLeft(s.t, s.clock)
  }

  lemma NextPoll(cfg: HostCfg, payload: Bytes, x: Setting, env: nat -> Polled, k: nat)
    requires Sendable(payload)
    ensures var s := SendAfter(cfg, payload, x, FirstPolls(env, k));
            s.verdict == None ==>
              SendAfter(cfg, payload, x, FirstPolls(env, k + 1)) == SendPoll(cfg, x.writes, s, env(k))
  {
    assert FirstPolls(env, k + 1) == FirstPolls(env, k) + [env(k)];
    if SendAfter(cfg, payload, x, FirstPolls(env, k)).verdict == None {
      PollInStep(cfg, payload, x, FirstPolls(env, k), SendAfter(cfg, payload, x, FirstPolls(env, k)), env(k));
    }
  }

  lemma EndsFrom(cfg: HostCfg, payload: Bytes, x: Setting, env: nat -> Polled, k: nat)
    requires Sendable(payload) && Patient(cfg, payload) && Ticks(env)
    ensures Ends(cfg, payload, x, env)
    decreases FramesToGo(cfg, payload, x, env, k), WaitsToGo(cfg, payload, x, env, k), TimeToGo(cfg, payload, x, env, k)
  {
    hide SendAfter, SendPoll, Drive;
    var s := SendAfter(cfg, payload, x, FirstPolls(env, k));
    if s.verdict == None {
      WaitsWithin(cfg, payload, x, FirstPolls(env, k));
      NextPoll(cfg, payload, x, env, k);
      PollGains(cfg, x.writes, s, env(k));
      EndsFrom(cfg, payload, x, env, k + 1);
    }
  }

  /**
   The loop ends on every bus if and only if WAITs are limited, or there is nothing to wait for or
   no time to wait.
   */
  lemma SendEndsExactly(cfg: HostCfg, payload: Bytes)
    requires cfg.Valid() && Sendable(payload)
    ensures Patient(cfg, payload)
            <==> forall x: Setting, env: nat -> Polled :: Ticks(env) ==> Ends(cfg, payload, x, env)
  {
    hide Ticks, Ends, SendAfter;
    if Patient(cfg, payload) {
      forall x: Setting, env: nat -> Polled | Ticks(env) ensures Ends(cfg, payload, x, env) {
        EndsFrom(cfg, payload, x, env, 0);
      }
    } else {
      var env := OnlyWaits(cfg);
      NeverEnds(cfg, payload, Setting(0, (k: nat) => Written(0, true)), env);
    }
  }
}
