/**
 The host drivers: the machines run over a bus that is polled, one message at a
 time, and that carries other traffic too. Time passes in polls, writes and sleeps.

 `SendAfter` and `RecvAfter` say what a driver has done once it has seen a given
 log of polls; the loops are proved to do just that.
 */
module IsoTpHost {
  import opened Prelude
  import opened IsoTpFrames
  import opened IsoTpSteps
  import opened IsoTpMachine
  import R = IsoTpReceive

  datatype Reply = Quiet | Message(msg: RxMsg) | Broken

  /** One poll: what it yielded and how long it took. */
  datatype Polled = Polled(took: Time, reply: Reply)

  /** One write: how long it took and whether it succeeded. */
  datatype Written = Written(took: Time, ok: bool)

  /** When a driver starts, and what its writes will come to, in order. */
  datatype Setting = Setting(start: Time, writes: nat -> Written)

  /** A frame handed over for writing, and when. */
  datatype Stamp = Stamp(frame: Bytes, at: Time)

  datatype HostCfg = HostCfg(txId: Bytes, rxId: Bytes, ext: Addr, padding: Option<byte>, nBs: Time, nCr: Time,
                             wftMax: byte, rxBs: byte, rxStmin: byte)
  {
    predicate Valid() {
      |txId| == 4 && |rxId| == 4
    }

    function Tx(payload: Bytes): TxCfg {
      TxCfg(payload, padding, ext, nBs, wftMax)
    }

    function Rx(): RxCfg {
      RxCfg(rxBs, rxStmin, padding, nCr, ext)
    }

    /** What `poll_frame` lets through. */
    predicate Mine(r: Reply) {
      && r.Message?
      && !r.msg.IsIndication()
      && |r.msg.data| > 4
      && r.msg.data[..4] == rxId
      && (ext.Some? ==> r.msg.data[4] == ext.value)
    }
  }

  /** The frame behind the identifier. */
  function Body(r: Reply): Bytes {
    if r.Message? && |r.msg.data| > 4 then r.msg.data[4..] else []
  }

  datatype HostError =
    | Protocol(error: IsoTpError)
    | MsgTooLong(len: nat)
    | TimedOut
    | Device

  type Verdict<T> = Option<Result<T, HostError>>

  /** The polled bus. `env` is any peer, any other traffic and any timing; writes take time and may fail. */
  class Bus {
    const env: nat -> Polled
    const writeEnv: nat -> Written
    var polls: nat
    var written: nat
    var clock: Time
    /** The messages handed over, each with the moment it was. */
    var sent: seq<Stamp>
    /** The polls made, with the time each really took. */
    ghost var log: seq<Polled>

    constructor (env: nat -> Polled, writeEnv: nat -> Written, clock: Time)
      ensures sent == [] && log == [] && written == 0 && this.clock == clock
    {
      this.env, this.writeEnv, this.polls, this.written, this.clock := env, writeEnv, 0, 0, clock;
      this.sent, this.log := [], [];
    }

    /** A poll always takes some time. */
    method Poll(budget: Time) returns (r: Reply, ghost p: Polled)
      modifies this`polls, this`clock, this`log
      ensures log == old(log) + [p]
      ensures p.reply == r && p.took > 0 && clock == old(clock) + p.took
    {
      var next := env(polls);
      var took := 1 + next.took;
      polls, clock, r, p := polls + 1, clock + took, next.reply, Polled(took, next.reply);
      log := log + [p];
    }

    method SleepUntil(t: Time)
      modifies this`clock
      ensures clock == Max(old(clock), t)
    {
      if t > clock {
        clock := t;
      }
    }

    /** `RawChannel::write` on raw CAN: an identifier and at most 8 data bytes. */
    method Write(id: Bytes, frame: Bytes) returns (r: Result<(), HostError>)
      modifies this`sent, this`clock, this`written
      ensures if 4 <= |id + frame| <= 12 then
                var w := writeEnv(old(written));
                && sent == old(sent) + [Stamp(id + frame, old(clock))]
                && clock == old(clock) + w.took && written == old(written) + 1
                && r == if w.ok then Ok(()) else Err(Device)
              else
                && r == Err(MsgTooLong(|id + frame|))
                && sent == old(sent) && clock == old(clock) && written == old(written)
    {
      var msg := id + frame;
      if |msg| < 4 || |msg| > 12 {
        return Err(MsgTooLong(|msg|));
      }
      sent := sent + [Stamp(msg, clock)];
      var w := writeEnv(written);
      clock, written := clock + w.took, written + 1;
      return if w.ok then Ok(()) else Err(Device);
    }
  }

  function WithId(id: Bytes, out: seq<Stamp>): seq<Stamp> {
    seq(|out|, i requires 0 <= i < |out| => Stamp(id + out[i].frame, out[i].at))
  }

  lemma WithIdAppend(id: Bytes, a: seq<Stamp>, b: seq<Stamp>, before: seq<Stamp>)
    ensures before + WithId(id, a) + WithId(id, b) == before + WithId(id, a + b)
  {
  }

  lemma WithIdOne(id: Bytes, s: Stamp)
    ensures WithId(id, [s]) == [Stamp(id + s.frame, s.at)]
  {
  }

  lemma WithIdNone(id: Bytes, before: seq<Stamp>)
    ensures before + WithId(id, []) == before
  {
  }

  /** The frames handed over, without their times. */
  function FramesOf(out: seq<Stamp>): seq<Bytes> {
    seq(|out|, i requires 0 <= i < |out| => out[i].frame)
  }

  lemma FramesAppend(a: seq<Stamp>, b: seq<Stamp>)
    ensures FramesOf(a + b) == FramesOf(a) + FramesOf(b)
  {
  }

  /** The writes to come after `n` writes. */
  function Later(writes: nat -> Written, n: nat): nat -> Written {
    (k: nat) => writes(n + k)
  }

  /** A driver started now, with `n` writes done before it. */
  function From(start: Time, writes: nat -> Written, n: nat): Setting {
    Setting(start, Later(writes, n))
  }

  // ---- sending --------------------------------------------------------------

  datatype SendState = SendState(t: Tx, clock: Time, out: seq<Stamp>, verdict: Verdict<()>) {
    predicate Inv() {
      t.Inv()
    }
  }

  function TimeLeft(t: Tx, clock: Time): nat {
    match t.phase
    case AwaitFc(deadline) => Max(0, deadline - clock)
    case Consecutive(earliest) => Max(0, earliest - clock)
    case _ => 0
  }

  /** Everything the driver does until it must poll: send, pace, finish, or give up. */
  function Drive(t: Tx, clock: Time, w: nat -> Written): (s: SendState)
    requires t.Inv()
    ensures s.Inv() && s.t.cfg == t.cfg
    ensures s.verdict == None ==> s.t.phase.AwaitFc? && s.clock < s.t.phase.deadline
    decreases t.cfg.Total() - t.sent, TimeLeft(t, clock)
  {
    var n := TxNext(t, clock);
    match n.res
    case Err(e) => SendState(n.tx, clock, [], Some(Err(Protocol(e))))
    case Ok(TxDone) => SendState(n.tx, clock, [], Some(Ok(())))
    case Ok(WaitFc(_)) => SendState(n.tx, clock, [], None)
    case Ok(WaitUntil(u)) => Drive(n.tx, Max(clock, u), w)
    case Ok(Send(f)) =>
      var later := clock + w(t.sent).took;
      if !w(t.sent).ok then SendState(n.tx, later, [Stamp(f, clock)], Some(Err(Device)))
      else
        var rest := Drive(n.tx, later, w);
        rest.(out := [Stamp(f, clock)] + rest.out)
  }

  function Then(s: SendState, next: SendState): SendState {
    next.(out := s.out + next.out)
  }

  function SendPoll(cfg: HostCfg, w: nat -> Written, s: SendState, p: Polled): (s': SendState)
    requires s.Inv()
    ensures s'.Inv() && s'.t.cfg == s.t.cfg
    ensures s'.verdict == None ==> s'.t.phase.AwaitFc? && s'.clock < s'.t.phase.deadline
  {
    var clock := s.clock + p.took;
    if p.reply.Broken? then s.(clock := clock, verdict := Some(Err(Device)))
    else if cfg.Mine(p.reply) then
      var fed := TxOnFrame(s.t, Body(p.reply), clock);
      if fed.res.Err? then s.(t := fed.tx, clock := clock, verdict := Some(Err(Protocol(fed.res.error))))
      else Then(s, Drive(fed.tx, clock, w))
    else Then(s, Drive(s.t, clock, w))
  }

  /** The sender after the polls in `log`, started at `start`. */
  function SendAfter(cfg: HostCfg, payload: Bytes, x: Setting, log: seq<Polled>): (s: SendState)
    requires Sendable(payload)
    ensures s.Inv() && s.t.cfg == cfg.Tx(payload)
    ensures s.verdict == None ==> s.t.phase.AwaitFc? && s.clock < s.t.phase.deadline
  {
    if log == [] then Drive(TxInit(cfg.Tx(payload)), x.start, x.writes)
    else
      var s := SendAfter(cfg, payload, x, log[..|log| - 1]);
      if s.verdict.Some? then s else SendPoll(cfg, x.writes, s, log[|log| - 1])
  }

  /** In the middle of driving: `done` is out, the machine is at `t`, and `log` has been polled. */
  predicate InStep(
    cfg: HostCfg, payload: Bytes, x: Setting, log: seq<Polled>, done: seq<Stamp>, t: Tx, clock: Time)
    requires Sendable(payload) && t.Inv()
  {
    var rest := Drive(t, clock, x.writes);
    SendAfter(cfg, payload, x, log) == rest.(out := done + rest.out)
  }

  lemma StartInStep(cfg: HostCfg, payload: Bytes, x: Setting)
    requires Sendable(payload)
    ensures InStep(cfg, payload, x, [], [], TxInit(cfg.Tx(payload)), x.start)
  {
    Unit(Drive(TxInit(cfg.Tx(payload)), x.start, x.writes).out);
  }

  /** One poll-free action. */
  lemma ActionInStep(
    cfg: HostCfg, payload: Bytes, x: Setting, log: seq<Polled>, done: seq<Stamp>, t: Tx, clock: Time)
    requires Sendable(payload) && t.Inv() && InStep(cfg, payload, x, log, done, t, clock)
    ensures var n, s := TxNext(t, clock), SendAfter(cfg, payload, x, log);
            if n.res.Err? then s.verdict == Some(Err(Protocol(n.res.error))) && s.out == done
            else if n.res.value.TxDone? then s.verdict == Some(Ok(())) && s.out == done
            else if n.res.value.WaitFc? then s == SendState(t, clock, done, None)
            else if n.res.value.WaitUntil? then
              InStep(cfg, payload, x, log, done, t, Max(clock, n.res.value.until))
            else
              var more, w := done + [Stamp(n.res.value.frame, clock)], x.writes(t.sent);
              if w.ok then InStep(cfg, payload, x, log, more, n.tx, clock + w.took)
              else s.verdict == Some(Err(Device)) && s.out == more
  {
    hide SendAfter;
    var n := TxNext(t, clock);
    Unit(done);
    if n.res.Ok? && n.res.value.Send? && x.writes(t.sent).ok {
      var rest := Drive(n.tx, clock + x.writes(t.sent).took, x.writes);
      Assoc(done, [Stamp(n.res.value.frame, clock)], rest.out);
    }
  }

  lemma PollInStep(cfg: HostCfg, payload: Bytes, x: Setting, log: seq<Polled>, s: SendState, p: Polled)
    requires Sendable(payload) && s == SendAfter(cfg, payload, x, log) && s.verdict == None
    ensures SendAfter(cfg, payload, x, log + [p]) == SendPoll(cfg, x.writes, s, p)
  {
    assert (log + [p])[..|log|] == log;
  }

  /** The wait for flow control: one poll, fed to the machine if it is for us. */
  method AwaitReply(
    bus: Bus, tx: TxMachine, cfg: HostCfg, deadline: Time, ghost done: seq<Stamp>, ghost w: nat -> Written)
    returns (v: Verdict<()>, ghost p: Polled)
    requires tx.Valid() && tx.state == AwaitingFc(deadline) && bus.clock < deadline && tx.waitCount <= tx.wftMax < 255
    modifies bus`polls, bus`clock, bus`log, tx
    ensures tx.Valid() && tx.Abs().cfg == old(tx.Abs().cfg) && tx.sent == old(tx.sent)
    ensures bus.log == old(bus.log) + [p] && bus.clock == old(bus.clock) + p.took && p.took > 0
    ensures var s := SendPoll(cfg, w, SendState(old(tx.Abs()), old(bus.clock), done, None), p);
            if v.Some? then s.verdict == v && s.out == done
            else
              var rest := Drive(tx.Abs(), bus.clock, w);
              s == rest.(out := done + rest.out)
    ensures v == None ==>
              || tx.state.SendingCf?
              || (tx.state.AwaitingFc? && old(tx.waitCount) < tx.waitCount <= tx.wftMax)
              || tx.Abs() == old(tx.Abs())
    ensures v == None ==> tx.waitCount <= tx.wftMax
  {
    hide Drive, ParseFc, Segment, FrameAt, FrameCount, Represents, DecodeStmin;
    var reply;
    reply, p := bus.Poll(Min(deadline - bus.clock, 100 * MS));
    if reply.Broken? {
      return Some(Err(Device)), p;
    }
    if cfg.Mine(reply) {
      Mod256Next(tx.waitCount + 1);
      var fed := tx.OnFrame(reply.msg.data[4..], bus.clock);
      if fed.Err? {
        return Some(Err(Protocol(fed.error))), p;
      }
    }
    return None, p;
  }

  /** Either WAITs are limited, or there is nothing to wait for, or no time to wait. */
  predicate Patient(cfg: HostCfg, payload: Bytes) {
    cfg.wftMax < 255 || |payload| <= 7 - AddrLen(cfg.ext) || cfg.nBs == 0
  }

  /** What holds at the head of the sending loop. */
  ghost predicate Sending(
    bus: Bus, tx: TxMachine, cfg: HostCfg, payload: Bytes, x: Setting, base: nat, log: seq<Polled>, done: seq<Stamp>)
    reads bus, tx
  {
    && Sendable(payload) && tx.Valid() && tx.Abs().cfg == cfg.Tx(payload)
    && tx.waitCount <= tx.wftMax && Patient(cfg, payload)
    && (tx.wftMax == 255 && tx.state.AwaitingFc? ==> tx.nBs == 0 && bus.clock >= tx.state.deadline)
    && x.writes == Later(bus.writeEnv, base) && bus.written == base + |tx.sent|
    && InStep(cfg, payload, x, log, done, tx.Abs(), bus.clock)
  }

  ghost function FramesLeft(tx: TxMachine): nat
    reads tx
  {
    if tx.Abs().Inv() then tx.Abs().cfg.Total() - |tx.sent| else 0
  }

  ghost function Phase(tx: TxMachine): nat
    reads tx
  {
    if tx.state.SendingCf? then 0 else 1
  }

  ghost function WaitsLeft(tx: TxMachine): nat
    reads tx
  {
    Max(0, tx.wftMax - tx.waitCount)
  }

  ghost function WaitLeft(tx: TxMachine, clock: Time): nat
    reads tx
  {
    TimeLeft(tx.Abs(), clock)
  }

  lemma Reenter(cfg: HostCfg, payload: Bytes, x: Setting, log: seq<Polled>, done: seq<Stamp>, t: Tx, clock: Time)
    requires Sendable(payload) && t.Inv()
    requires var rest := Drive(t, clock, x.writes);
             SendAfter(cfg, payload, x, log) == rest.(out := done + rest.out)
    ensures InStep(cfg, payload, x, log, done, t, clock)
  {
  }

  /** One round of the sending loop. */
  method SendRound(
    bus: Bus, tx: TxMachine, cfg: HostCfg, ghost payload: Bytes, ghost x: Setting, ghost base: nat,
    ghost log: seq<Polled>, ghost done: seq<Stamp>)
    returns (v: Verdict<()>, ghost polled: seq<Polled>, ghost out: seq<Stamp>)
    requires cfg.Valid() && Sending(bus, tx, cfg, payload, x, base, log, done)
    modifies bus, tx
    ensures bus.log == old(bus.log) + polled
    ensures bus.sent == old(bus.sent) + WithId(cfg.txId, out)
    ensures v.Some? ==>
              var s := SendAfter(cfg, payload, x, log + polled);
              s.verdict == v && s.out == done + out
    ensures v == None ==>
              && Sending(bus, tx, cfg, payload, x, base, log + polled, done + out)
              && (FramesLeft(tx) < old(FramesLeft(tx))
                  || (FramesLeft(tx) == old(FramesLeft(tx))
                      && (Phase(tx) < old(Phase(tx))
                          || (Phase(tx) == old(Phase(tx))
                              && (WaitsLeft(tx) < old(WaitsLeft(tx))
                                  || (WaitsLeft(tx) == old(WaitsLeft(tx))
                                      && WaitLeft(tx, bus.clock) < old(WaitLeft(tx, bus.clock))))))))
  {
    hide InStep, SendAfter, Drive, FrameAt, FrameCount, Segment, TxOnFrame, ParseFc, SendPoll, WithId, HostCfg.Mine,
         DecodeStmin, Pad;
    ActionInStep(cfg, payload, x, log, done, tx.Abs(), bus.clock);
    Unit(log);
    Unit(done);
    Unit(bus.log);
    WithIdNone(cfg.txId, bus.sent);
    ghost var k := |tx.sent|;
    var now := bus.clock;
    polled, out := [], [];
    var action := tx.Next(now);
    match action
    case Err(e) =>
      v := Some(Err(Protocol(e)));
    case Ok(TxDone) =>
      v := Some(Ok(()));
    case Ok(Send(f)) =>
      FrameSizes(payload, cfg.padding, cfg.ext, k);
      var w := bus.Write(cfg.txId, f);
      WithIdOne(cfg.txId, Stamp(f, now));
      out := [Stamp(f, now)];
      v := if w.Err? then Some(w) else None;
    case Ok(WaitUntil(u)) =>
      bus.SleepUntil(u);
      v := None;
    case Ok(WaitFc(deadline)) =>
      ghost var s := SendState(tx.Abs(), bus.clock, done, None);
      ghost var p;
      v, p := AwaitReply(bus, tx, cfg, deadline, done, x.writes);
      PollInStep(cfg, payload, x, log, s, p);
      polled := [p];
      if v == None {
        Reenter(cfg, payload, x, log + polled, done, tx.Abs(), bus.clock);
      }
  }

  method SendAll(bus: Bus, tx: TxMachine, cfg: HostCfg, ghost payload: Bytes)
    returns (r: Result<(), HostError>, ghost log: seq<Polled>)
    requires cfg.Valid() && Patient(cfg, payload) && Sendable(payload)
    requires tx.Valid() && tx.Abs() == TxInit(cfg.Tx(payload))
    modifies bus, tx
    ensures bus.log == old(bus.log) + log
    ensures var s := SendAfter(cfg, payload, From(old(bus.clock), bus.writeEnv, old(bus.written)), log);
            s.verdict == Some(r) && bus.sent == old(bus.sent) + WithId(cfg.txId, s.out)
  {
    ghost var done: seq<Stamp> := [];
    ghost var x, base := From(bus.clock, bus.writeEnv, bus.written), bus.written;
    log := [];
    StartInStep(cfg, payload, x);
    WithIdNone(cfg.txId, bus.sent);
    Unit(bus.log);
    assert Sending(bus, tx, cfg, payload, x, base, [], []);
    hide *;
    while true
      invariant Sending(bus, tx, cfg, payload, x, base, log, done)
      invariant bus.log == old(bus.log) + log
      invariant bus.sent == old(bus.sent) + WithId(cfg.txId, done)
      decreases FramesLeft(tx), Phase(tx), WaitsLeft(tx), WaitLeft(tx, bus.clock)
    {
      var v, polled, out := SendRound(bus, tx, cfg, payload, x, base, log, done);
      WithIdAppend(cfg.txId, done, out, old(bus.sent));
      Assoc(old(bus.log), log, polled);
      log, done := log + polled, done + out;
      if v.Some? {
        return v.value, log;
      }
    }
  }

  /**
   `host_send`. The unsent frames, the wait, the WAITs still allowed and the time left
   decrease in this order, so it ends for every peer. The one condition is exact: without it
   a peer that says nothing but WAIT keeps the loop going forever (`IsoTpSendRuns.SendEndsExactly`).
   */
  method HostSend(bus: Bus, cfg: HostCfg, payload: Bytes) returns (r: Result<(), HostError>, ghost log: seq<Polled>)
    requires cfg.Valid() && (Sendable(payload) ==> Patient(cfg, payload))
    modifies bus
    ensures bus.log == old(bus.log) + log
    ensures !Sendable(payload) ==> bus.sent == old(bus.sent) && r.Err? && r.error.Protocol?
    ensures Sendable(payload) ==>
              var s := SendAfter(cfg, payload, From(old(bus.clock), bus.writeEnv, old(bus.written)), log);
              && s.verdict == Some(r)
              && bus.sent == old(bus.sent) + WithId(cfg.txId, s.out)
  {
    log := [];
    var made := TxMachine.WithAddr(payload, cfg.padding, cfg.nBs, cfg.wftMax, cfg.ext);
    if made.Err? {
      r := Err(Protocol(made.error));
    } else {
      r, log := SendAll(bus, made.value, cfg, payload);
    }
  }

  // ---- receiving ------------------------------------------------------------

  datatype RecvState = RecvState(rx: Rx, clock: Time, fcs: seq<Stamp>, verdict: Verdict<Bytes>)

  /** The two clock checks at the head of the receiving loop, in their order. */
  function Late(rx: Rx, now: Time, deadline: Time): Verdict<Bytes> {
    if CfTimedOut(rx, now) then Some(Err(Protocol(CfTimeout)))
    else if now >= deadline then Some(Err(TimedOut))
    else None
  }

  function Check(s: RecvState, deadline: Time): RecvState {
    if s.verdict.Some? then s else s.(verdict := Late(s.rx, s.clock, deadline))
  }

  /** A frame ends the receiving if it is an error or completes a payload. */
  function Ruling(r: Result<RxEvent, IsoTpError>): Verdict<Bytes> {
    match r
    case Err(e) => Some(Err(Protocol(e)))
    case Ok(Done(payload)) => Some(Ok(payload))
    case Ok(_) => None
  }

  predicate Grants(r: Result<RxEvent, IsoTpError>) {
    r.Ok? && r.value.SendFc?
  }

  /** Feeds one frame that has just arrived and writes the flow control it calls for. */
  function RecvFrame(cfg: HostCfg, w: nat -> Written, s: RecvState, f: Bytes): (s': RecvState)
    requires s.rx.Inv(cfg.rxBs)
    ensures s'.rx.Inv(cfg.rxBs)
  {
    var step := RxOnFrame(cfg.Rx(), s.rx, f, s.clock);
    var fed := s.(rx := step.rx, verdict := Ruling(step.res));
    if !Grants(step.res) then fed
    else
      var wr := w(|s.fcs|);
      fed.(clock := s.clock + wr.took,
           fcs := s.fcs + [Stamp(step.res.value.fc, s.clock)],
           verdict := if wr.ok then None else Some(Err(Device)))
  }

  function RecvPoll(cfg: HostCfg, w: nat -> Written, s: RecvState, p: Polled): (s': RecvState)
    requires s.rx.Inv(cfg.rxBs)
    ensures s'.rx.Inv(cfg.rxBs)
  {
    var now := s.(clock := s.clock + p.took);
    if p.reply.Broken? then now.(verdict := Some(Err(Device)))
    else if cfg.Mine(p.reply) then RecvFrame(cfg, w, now, Body(p.reply))
    else now
  }

  /** The receiver after the polls in `log`. */
  function RecvAfter(cfg: HostCfg, x: Setting, timeout: Time, log: seq<Polled>): (s: RecvState)
    ensures s.rx.Inv(cfg.rxBs)
  {
    if log == [] then Check(RecvState(Idle, x.start, [], None), x.start + timeout)
    else
      var s := RecvAfter(cfg, x, timeout, log[..|log| - 1]);
      if s.verdict.Some? then s else Check(RecvPoll(cfg, x.writes, s, log[|log| - 1]), x.start + timeout)
  }

  lemma RecvNext(cfg: HostCfg, x: Setting, timeout: Time, log: seq<Polled>, s: RecvState, p: Polled)
    requires s == RecvAfter(cfg, x, timeout, log) && s.verdict == None
    ensures RecvAfter(cfg, x, timeout, log + [p]) == Check(RecvPoll(cfg, x.writes, s, p), x.start + timeout)
  {
    assert (log + [p])[..|log|] == log;
  }

  /** One poll of the receiving loop, fed to the machine if it is for us. */
  method RecvRound(
    bus: Bus, rx: RxMachine, cfg: HostCfg, budget: Time, ghost s: RecvState, ghost w: nat -> Written, ghost base: nat)
    returns (v: Verdict<Bytes>, ghost p: Polled, ghost out: seq<Stamp>)
    requires cfg.Valid() && rx.Valid() && rx.Cfg() == cfg.Rx()
    requires s.rx == rx.Abs() && s.clock == bus.clock && s.verdict == None
    requires w == Later(bus.writeEnv, base) && bus.written == base + |s.fcs|
    modifies bus, rx
    ensures rx.Valid() && rx.Cfg() == cfg.Rx()
    ensures bus.log == old(bus.log) + [p] && bus.clock > old(bus.clock)
    ensures bus.sent == old(bus.sent) + WithId(cfg.txId, out) && bus.written == old(bus.written) + |out|
    ensures var next := RecvPoll(cfg, w, s, p);
            && next.verdict == v && next.fcs == s.fcs + out && next.clock == bus.clock
            && (v == None ==> next.rx == rx.Abs())
  {
    hide Parse, RxOnPci, Pad, WithId, R.After, R.Outcome;
    Unit(s.fcs);
    WithIdNone(cfg.txId, bus.sent);
    v, out := None, [];
    var reply;
    reply, p := bus.Poll(budget);
    if reply.Broken? {
      return Some(Err(Device)), p, out;
    }
    if cfg.Mine(reply) {
      var event := rx.OnFrame(reply.msg.data[4..], bus.clock);
      if event.Err? {
        return Some(Err(Protocol(event.error))), p, out;
      }
      match event.value
      case SendFc(fc) =>
        PadKeeps(StartFrame(cfg.ext) + [0x30, cfg.rxBs, cfg.rxStmin], cfg.padding);
        WithIdOne(cfg.txId, Stamp(fc, bus.clock));
        out := [Stamp(fc, bus.clock)];
        var written := bus.Write(cfg.txId, fc);
        v := if written.Err? then Some(Err(written.error)) else None;
      case Done(payload) =>
        v := Some(Ok(payload));
      case Continue =>
    }
  }

  /** `host_recv`: it ends because every poll takes time. */
  method HostRecv(bus: Bus, cfg: HostCfg, timeout: Time) returns (r: Result<Bytes, HostError>, ghost log: seq<Polled>)
    requires cfg.Valid()
    modifies bus
    ensures bus.log == old(bus.log) + log
    ensures var s := RecvAfter(cfg, From(old(bus.clock), bus.writeEnv, old(bus.written)), timeout, log);
            s.verdict == Some(r) && bus.sent == old(bus.sent) + WithId(cfg.txId, s.fcs)
  {
    var rx := new RxMachine(cfg.rxBs, cfg.rxStmin, cfg.padding, cfg.nCr, cfg.ext);
    ghost var s := RecvState(Idle, bus.clock, [], None);
    ghost var x, base := From(bus.clock, bus.writeEnv, bus.written), bus.written;
    var deadline := bus.clock + timeout;
    log := [];
    assert RecvAfter(cfg, x, timeout, []) == Check(s, x.start + timeout);
    Unit(bus.log);
    WithIdNone(cfg.txId, bus.sent);
    hide RecvAfter, RecvPoll, WithId, Later;
    while true
      invariant rx.Valid() && fresh(rx) && rx.Cfg() == cfg.Rx()
      invariant s.rx == rx.Abs() && s.clock == bus.clock && s.verdict == None
      invariant bus.written == base + |s.fcs|
      invariant RecvAfter(cfg, x, timeout, log) == Check(s, deadline)
      invariant bus.log == old(bus.log) + log
      invariant bus.sent == old(bus.sent) + WithId(cfg.txId, s.fcs)
      decreases deadline - bus.clock
    {
      var alive := rx.CheckTimeout(bus.clock);
      if alive.Err? {
        return Err(Protocol(CfTimeout)), log;
      }
      if bus.clock >= deadline {
        return Err(TimedOut), log;
      }
      var v, p, out := RecvRound(bus, rx, cfg, Min(deadline - bus.clock, 200 * MS), s, x.writes, base);
      RecvNext(cfg, x, timeout, log, s, p);
      Assoc(old(bus.log), log, [p]);
      WithIdAppend(cfg.txId, s.fcs, out, old(bus.sent));
      s, log := RecvPoll(cfg, x.writes, s, p), log + [p];
      if v.Some? {
        return v.value, log;
      }
    }
  }

  /** What a log comes to: the frames for this endpoint with their times, the time, and the grants written. */
  datatype Known = Known(fed: seq<R.Arrival>, now: Time, grants: nat)

  function KnowMore(cfg: HostCfg, w: nat -> Written, k: Known, p: Polled): Known {
    var now := k.now + p.took;
    if !cfg.Mine(p.reply) then k.(now := now)
    else
      var fed := k.fed + [R.Arrival(Body(p.reply), now)];
      if Grants(R.Outcome(cfg.Rx(), fed).res) then Known(fed, now + w(k.grants).took, k.grants + 1)
      else Known(fed, now, k.grants)
  }

  function KnownAfter(cfg: HostCfg, x: Setting, log: seq<Polled>): Known {
    if log == [] then Known([], x.start, 0)
    else KnowMore(cfg, x.writes, KnownAfter(cfg, x, log[..|log| - 1]), log[|log| - 1])
  }

  /** N_Cr has run out on what the peer has begun. */
  predicate PeerSilent(cfg: HostCfg, k: Known) {
    R.MidTransfer(R.Heard(cfg.ext, k.fed)) && k.now > R.LastHeardAt(cfg.ext, k.fed) + cfg.nCr
  }

  /** What the last poll decides by itself, if it decides anything: `k` is what was known before it. */
  function LastSays(cfg: HostCfg, w: nat -> Written, k: Known, p: Polled): Verdict<Bytes> {
    if p.reply.Broken? then Some(Err(Device))
    else if !cfg.Mine(p.reply) then None
    else
      var res := R.Outcome(cfg.Rx(), k.fed + [R.Arrival(Body(p.reply), k.now + p.took)]).res;
      if Grants(res) && !w(k.grants).ok then Some(Err(Device)) else Ruling(res)
  }

  /** The state of the driver is what is known, as long as it goes on. */
  ghost predicate Tracks(cfg: HostCfg, s: RecvState, k: Known) {
    s.clock == k.now && |s.fcs| == k.grants && s.rx == R.After(cfg.Rx(), k.fed)
  }

  lemma FedOnce(cfg: HostCfg, k: Known, a: R.Arrival)
    ensures var fed := k.fed + [a];
            && R.Outcome(cfg.Rx(), fed) == RxOnFrame(cfg.Rx(), R.After(cfg.Rx(), k.fed), a.frame, a.now)
            && R.After(cfg.Rx(), fed) == R.Outcome(cfg.Rx(), fed).rx
  {
    hide RxOnFrame;
    assert (k.fed + [a])[..|k.fed|] == k.fed;
  }

  /** One poll, in terms of what is known. */
  lemma PollTracks(cfg: HostCfg, w: nat -> Written, s: RecvState, k: Known, p: Polled)
    requires s.rx.Inv(cfg.rxBs) && s.verdict == None && Tracks(cfg, s, k)
    ensures var next := RecvPoll(cfg, w, s, p);
            && next.verdict == LastSays(cfg, w, k, p)
            && (next.verdict == None ==> Tracks(cfg, next, KnowMore(cfg, w, k, p)))
  {
    hide RxOnFrame, HostCfg.Mine, Body, R.After, R.Outcome;
    if cfg.Mine(p.reply) {
      FedOnce(cfg, k, R.Arrival(Body(p.reply), k.now + p.took));
    }
  }

  lemma {:induction false} RecvTracks(cfg: HostCfg, x: Setting, timeout: Time, log: seq<Polled>)
    ensures var s := RecvAfter(cfg, x, timeout, log);
            s.verdict == None ==> Tracks(cfg, s, KnownAfter(cfg, x, log))
  {
    hide RecvPoll, KnowMore, LastSays;
    if log != [] {
      var before, p := log[..|log| - 1], log[|log| - 1];
      RecvTracks(cfg, x, timeout, before);
      var s := RecvAfter(cfg, x, timeout, before);
      if s.verdict == None {
        PollTracks(cfg, x.writes, s, KnownAfter(cfg, x, before), p);
      }
    }
  }

  /**
   Every result of `host_recv`, in terms of what was heard and when: the frame just polled
   decides, or the write it calls for if that fails; failing that CfTimeout exactly when N_Cr
   has passed since the last frame of a transfer under way; failing that TimedOut exactly when
   the caller's time is up.
   */
  lemma RecvVerdict(cfg: HostCfg, x: Setting, timeout: Time, log: seq<Polled>)
    requires log != [] && RecvAfter(cfg, x, timeout, log[..|log| - 1]).verdict == None
    ensures var k := KnownAfter(cfg, x, log);
            var says := LastSays(cfg, x.writes, KnownAfter(cfg, x, log[..|log| - 1]), log[|log| - 1]);
            RecvAfter(cfg, x, timeout, log).verdict
            == if says.Some? then says
               else if PeerSilent(cfg, k) then Some(Err(Protocol(CfTimeout)))
               else if k.now >= x.start + timeout then Some(Err(TimedOut))
               else None
  {
    hide RecvPoll, KnowMore, LastSays, R.After, R.MidTransfer, R.Heard, R.LastHeardAt, CfTimedOut;
    var before, p := log[..|log| - 1], log[|log| - 1];
    RecvTracks(cfg, x, timeout, before);
    PollTracks(cfg, x.writes, RecvAfter(cfg, x, timeout, before), KnownAfter(cfg, x, before), p);
    var k := KnownAfter(cfg, x, log);
    R.CfTimeoutExact(cfg.Rx(), k.fed, k.now);
  }

  /** A receive that is given no time ends before the first poll, and no other does. */
  lemma RecvAtOnce(cfg: HostCfg, x: Setting, timeout: Time)
    ensures RecvAfter(cfg, x, timeout, []).verdict == if timeout == 0 then Some(Err(TimedOut)) else None
  {
  }

  /** What `host_recv` returns is one complete transfer, ended by the last frame it heard from its peer. */
  lemma RecvDelivers(cfg: HostCfg, x: Setting, timeout: Time, log: seq<Polled>, payload: Bytes)
    requires log != [] && RecvAfter(cfg, x, timeout, log[..|log| - 1]).verdict == None
    ensures RecvAfter(cfg, x, timeout, log).verdict == Some(Ok(payload))
            <==> && cfg.Mine(log[|log| - 1].reply)
                 && Parse(cfg.ext, Body(log[|log| - 1].reply)).Relevant()
                 && R.Completes(R.Heard(cfg.ext, KnownAfter(cfg, x, log).fed), payload)
  {
    hide RxOnFrame, R.After, R.Outcome, R.Heard, R.Completes, RecvAfter, PeerSilent, Body, Parse, Pci.Relevant;
    RecvVerdict(cfg, x, timeout, log);
    var k, p := KnownAfter(cfg, x, log[..|log| - 1]), log[|log| - 1];
    if cfg.Mine(p.reply) {
      var fed := k.fed + [R.Arrival(Body(p.reply), k.now + p.took)];
      R.DeliversExactlyTransfers(cfg.Rx(), fed, payload);
      assert KnownAfter(cfg, x, log).fed == fed && fed[|fed| - 1].frame == Body(p.reply);
    }
  }

  // ---- what is sent ---------------------------------------------------------

  /** The frames out are the first ones of the segmentation; success means all of them, and the last one written. */
  predicate OnTrack(s: SendState, w: nat -> Written)
    requires s.Inv()
  {
    var cfg := s.t.cfg;
    && FramesOf(s.out) == Segment(cfg.payload, cfg.padding, cfg.addr)[..s.t.sent]
    && (s.verdict == Some(Ok(())) <==> s.t.sent == cfg.Total() && w(cfg.Total() - 1).ok)
  }

  lemma FrameFirst(cfg: TxCfg, k: nat, stamp: Stamp, rest: seq<Stamp>, end: nat)
    requires cfg.Valid() && k < end <= cfg.Total() && stamp.frame == cfg.Frame(k)
    requires FramesOf(rest) == Segment(cfg.payload, cfg.padding, cfg.addr)[k + 1..end] || (rest == [] && end == k + 1)
    ensures FramesOf([stamp] + rest) == Segment(cfg.payload, cfg.padding, cfg.addr)[k..end]
  {
    hide FrameAt, FrameCount;
    FramesAppend([stamp], rest);
    SliceCons(Segment(cfg.payload, cfg.padding, cfg.addr), k, end);
  }

  lemma NoFrames(cfg: TxCfg, k: nat)
    requires cfg.Valid() && k <= cfg.Total()
    ensures FramesOf([]) == Segment(cfg.payload, cfg.padding, cfg.addr)[k..k]
  {
  }

  /** One step of driving. */
  lemma DriveStep(t: Tx, clock: Time, w: nat -> Written)
    requires t.Inv()
    ensures var n, s := TxNext(t, clock), Drive(t, clock, w);
            if n.res.Err? then s == SendState(t, clock, [], Some(Err(Protocol(n.res.error))))
            else
              match n.res.value
              case Send(f) =>
                var later := clock + w(t.sent).took;
                if !w(t.sent).ok then s == SendState(n.tx, later, [Stamp(f, clock)], Some(Err(Device)))
                else
                  var rest := Drive(n.tx, later, w);
                  s == rest.(out := [Stamp(f, clock)] + rest.out)
              case WaitUntil(u) => s == Drive(t, Max(clock, u), w)
              case WaitFc(_) => s == SendState(t, clock, [], None)
              case TxDone => s == SendState(t, clock, [], Some(Ok(())))
  {
  }

  /** From `t` on, driving hands over the frames up to where it ends, and succeeds exactly with the last one written. */
  predicate Covers(t: Tx, s: SendState, w: nat -> Written)
    requires t.Inv() && s.Inv() && s.t.cfg == t.cfg
  {
    && t.sent <= s.t.sent <= t.cfg.Total()
    && FramesOf(s.out) == Segment(t.cfg.payload, t.cfg.padding, t.cfg.addr)[t.sent..s.t.sent]
    && (s.verdict == Some(Ok(())) <==> s.t.sent == t.cfg.Total() && w(t.cfg.Total() - 1).ok)
  }

  lemma FirstCovered(t: Tx, next: Tx, stamp: Stamp, rest: SendState, w: nat -> Written)
    requires t.Inv() && next.Inv() && rest.Inv() && next.cfg == t.cfg && rest.t.cfg == t.cfg
    requires t.sent < t.cfg.Total() && next.sent == t.sent + 1 && stamp.frame == t.cfg.Frame(t.sent)
    requires Covers(next, rest, w)
    ensures Covers(t, rest.(out := [stamp] + rest.out), w)
  {
    hide FrameAt, FrameCount, FramesOf, Segment;
    FrameFirst(t.cfg, t.sent, stamp, rest.out, rest.t.sent);
  }

  lemma OnlyCovered(t: Tx, next: Tx, stamp: Stamp, later: Time, w: nat -> Written)
    requires t.Inv() && next.Inv() && next.cfg == t.cfg && !w(t.sent).ok
    requires t.sent < t.cfg.Total() && next.sent == t.sent + 1 && stamp.frame == t.cfg.Frame(t.sent)
    ensures Covers(t, SendState(next, later, [stamp], Some(Err(Device))), w)
  {
    hide FrameAt, FrameCount, FramesOf, Segment;
    Unit([stamp]);
    FrameFirst(t.cfg, t.sent, stamp, [], t.sent + 1);
  }

  lemma {:induction false} DriveSegments(t: Tx, clock: Time, w: nat -> Written)
    requires t.Inv() && (t.phase.Finished? ==> w(t.cfg.Total() - 1).ok)
    ensures Covers(t, Drive(t, clock, w), w)
    decreases t.cfg.Total() - t.sent, TimeLeft(t, clock), 0
  {
    hide FrameAt, FrameCount, FramesOf, Segment, Drive;
    var n := TxNext(t, clock);
    DriveStep(t, clock, w);
    NoFrames(t.cfg, t.sent);
    if n.res.Ok? && n.res.value.WaitUntil? {
      DriveSegments(n.tx, Max(clock, n.res.value.until), w);
    } else if n.res.Ok? && n.res.value.Send? {
      SendCovers(t, n.tx, Stamp(n.res.value.frame, clock), clock + w(t.sent).took, w);
    }
  }

  /** One frame sent, and then whatever follows. */
  lemma {:induction false} SendCovers(t: Tx, next: Tx, stamp: Stamp, later: Time, w: nat -> Written)
    requires t.Inv() && next.Inv() && next.cfg == t.cfg && next.sent == t.sent + 1 <= t.cfg.Total()
    requires stamp.frame == t.cfg.Frame(t.sent)
    ensures var rest := Drive(next, later, w);
            Covers(t, if w(t.sent).ok then rest.(out := [stamp] + rest.out)
                      else SendState(next, later, [stamp], Some(Err(Device))), w)
    decreases t.cfg.Total() - next.sent, TimeLeft(next, later), 1
  {
    hide FrameAt, FrameCount, Covers, Drive;
    if w(t.sent).ok {
      DriveSegments(next, later, w);
      FirstCovered(t, next, stamp, Drive(next, later, w), w);
    } else {
      OnlyCovered(t, next, stamp, later, w);
    }
  }

  lemma ThenOnTrack(s: SendState, t: Tx, clock: Time, w: nat -> Written)
    requires s.Inv() && OnTrack(s, w) && t.Inv() && !t.phase.Finished? && t.cfg == s.t.cfg && t.sent == s.t.sent
    ensures OnTrack(Then(s, Drive(t, clock, w)), w)
  {
    hide FrameAt, FrameCount, Drive, FramesOf;
    DriveSegments(t, clock, w);
    FramesAppend(s.out, Drive(t, clock, w).out);
    SliceJoin(Segment(t.cfg.payload, t.cfg.padding, t.cfg.addr), t.sent, Drive(t, clock, w).t.sent);
  }

  lemma PollOnTrack(cfg: HostCfg, w: nat -> Written, s: SendState, p: Polled)
    requires s.Inv() && OnTrack(s, w) && s.verdict == None && s.t.phase.AwaitFc?
    ensures OnTrack(SendPoll(cfg, w, s, p), w)
  {
    hide Drive, ParseFc, Segment, FrameCount, FrameAt, Then, HostCfg.Mine, Body, FramesOf;
    var clock := s.clock + p.took;
    if p.reply.Broken? {
    } else if cfg.Mine(p.reply) {
      var fed := TxOnFrame(s.t, Body(p.reply), clock);
      if fed.res.Ok? {
        ThenOnTrack(s, fed.tx, clock, w);
      }
    } else {
      ThenOnTrack(s, s.t, clock, w);
    }
  }

  lemma StartOnTrack(t: Tx, x: Setting)
    requires t.Inv() && t.sent == 0
    ensures OnTrack(Drive(t, x.start, x.writes), x.writes)
  {
    DriveSegments(t, x.start, x.writes);
  }

  lemma {:induction false} TracksSegments(cfg: HostCfg, payload: Bytes, x: Setting, log: seq<Polled>)
    requires Sendable(payload)
    ensures OnTrack(SendAfter(cfg, payload, x, log), x.writes)
  {
    hide FrameAt, FrameCount, SendPoll, Drive, OnTrack;
    if log == [] {
      StartOnTrack(TxInit(cfg.Tx(payload)), x);
    } else {
      TracksSegments(cfg, payload, x, log[..|log| - 1]);
      var s := SendAfter(cfg, payload, x, log[..|log| - 1]);
      if s.verdict == None {
        PollOnTrack(cfg, x.writes, s, log[|log| - 1]);
      }
    }
  }

  /**
   What `host_send` hands over is a prefix of the segmentation; it succeeds exactly when that is
   all of it and the last write succeeds.
   */
  lemma SendsSegments(cfg: HostCfg, payload: Bytes, x: Setting, log: seq<Polled>)
    requires Sendable(payload)
    ensures var s, fs := SendAfter(cfg, payload, x, log), Segment(payload, cfg.padding, cfg.ext);
            && FramesOf(s.out) <= fs
            && (s.verdict == Some(Ok(())) <==> FramesOf(s.out) == fs && x.writes(|fs| - 1).ok)
  {
    hide FrameAt, FrameCount, SendAfter;
    TracksSegments(cfg, payload, x, log);
    var fs := Segment(payload, cfg.padding, cfg.ext);
    assert fs[..|fs|] == fs;
  }

  // ---- response pending -----------------------------------------------------

  const MAX_RESPONSE_PENDING: nat := 30

  predicate IsResponsePending(resp: Bytes) {
    |resp| >= 3 && resp[0] == 0x7f && resp[2] == 0x78
  }

  /** A negative response, 0x7f, to any service, with the code 0x78. */
  lemma PendingExactly(resp: Bytes)
    ensures IsResponsePending(resp) <==> exists service: byte :: [0x7f, service, 0x78] <= resp
  {
    if IsResponsePending(resp) {
      assert [0x7f, resp[1], 0x78] <= resp;
    }
  }

  /**
   `drain_pending` over any stream of responses: the first one that is not pending,
   or the 31st; an error ends it at once.
   */
  method DrainPending(recv: nat -> Result<Bytes, HostError>) returns (r: Result<Bytes, HostError>, calls: nat)
    ensures 1 <= calls <= 31 && r == recv(calls - 1)
    ensures forall i :: 0 <= i < calls - 1 ==> recv(i).Ok? && IsResponsePending(recv(i).value)
    ensures r.Ok? && IsResponsePending(r.value) ==> calls == 31
  {
    var pending := 0;
    calls := 0;
    while true
      invariant calls == pending <= MAX_RESPONSE_PENDING
      invariant forall i :: 0 <= i < calls ==> recv(i).Ok? && IsResponsePending(recv(i).value)
      decreases MAX_RESPONSE_PENDING - pending
    {
      r := recv(calls);
      calls := calls + 1;
      if r.Ok? && IsResponsePending(r.value) && pending < MAX_RESPONSE_PENDING {
        pending := pending + 1;
      } else {
        return;
      }
    }
  }
}
