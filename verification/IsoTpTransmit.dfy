/**
 What a transmitter does over a whole run, whatever the peer sends and whatever
 the clock shows: a run is any interleaving of polls and received frames, and its
 trace is judged by `EventOk`, which never looks at the machine's state.
 */
module IsoTpTransmit {
  import opened Prelude
  import opened IsoTpFrames
  import opened IsoTpSteps

  datatype Input = Poll(now: Time) | Recv(data: Bytes, now: Time)

  datatype Event =
    | Sent(frame: Bytes, at: Time)
    | Granted(bs: byte, stmin: byte, at: Time)
    | Waited(at: Time)
    | Failed(error: IsoTpError, at: Time)

  datatype Run = Run(tx: Tx, trace: seq<Event>)

  function Step(t: Tx, i: Input): (r: Run)
    requires t.Inv()
    ensures r.tx.Inv() && r.tx.cfg == t.cfg
  {
    match i
    case Poll(now) =>
      var s := TxNext(t, now);
      Run(s.tx,
          match s.res
          case Err(e) => [Failed(e, now)]
          case Ok(Send(f)) => [Sent(f, now)]
          case Ok(_) => [])
    case Recv(data, now) =>
      var s := TxOnFrame(t, data, now);
      Run(s.tx,
          if s.res.Err? then [Failed(s.res.error, now)]
          else if !t.phase.AwaitFc? then []
          else
            match ParseFc(t.cfg.addr, data)
            case Cts(bs, stmin) => [Granted(bs, stmin, now)]
            case Wait => [Waited(now)]
            case _ => [])
  }

  function RunFrom(cfg: TxCfg, ins: seq<Input>): (r: Run)
    requires cfg.Valid()
    ensures r.tx.Inv() && r.tx.cfg == cfg
  {
    if ins == [] then Run(TxInit(cfg), [])
    else
      var before := RunFrom(cfg, ins[..|ins| - 1]);
      var s := Step(before.tx, ins[|ins| - 1]);
      Run(s.tx, before.trace + s.trace)
  }

  // ---- reading a trace ------------------------------------------------------

  function Frames(trace: seq<Event>): seq<Bytes> {
    if trace == [] then []
    else
      var e := trace[|trace| - 1];
      Frames(trace[..|trace| - 1]) + if e.Sent? then [e.frame] else []
  }

  datatype Grant = Grant(bs: byte, stmin: byte)

  /** The flow control in force. */
  function LastGrant(trace: seq<Event>): Option<Grant> {
    if trace == [] then None
    else
      var e := trace[|trace| - 1];
      if e.Granted? then Some(Grant(e.bs, e.stmin)) else LastGrant(trace[..|trace| - 1])
  }

  /** Frames sent since the last grant. */
  function SinceGrant(trace: seq<Event>): nat {
    if trace == [] then 0
    else
      var e := trace[|trace| - 1];
      if e.Granted? then 0 else SinceGrant(trace[..|trace| - 1]) + if e.Sent? then 1 else 0
  }

  /** WAITs honoured since the last grant. */
  function WaitsSinceGrant(trace: seq<Event>): nat {
    if trace == [] then 0
    else
      var e := trace[|trace| - 1];
      if e.Granted? then 0 else WaitsSinceGrant(trace[..|trace| - 1]) + if e.Waited? then 1 else 0
  }

  /** When the sender last sent a frame or honoured a WAIT. */
  function LastArmed(trace: seq<Event>): Time {
    if trace == [] then 0
    else
      var e := trace[|trace| - 1];
      if e.Sent? || e.Waited? then e.at else LastArmed(trace[..|trace| - 1])
  }

  predicate Clean(trace: seq<Event>) {
    forall e :: e in trace ==> !e.Failed?
  }

  /** The sender owes nothing and waits: after the first frame, or after exactly the granted block. */
  predicate BlockOver(cfg: TxCfg, past: seq<Event>)
    requires cfg.Valid()
  {
    && |Frames(past)| < cfg.Total()
    && match LastGrant(past)
       case None => |Frames(past)| == 1
       case Some(g) => g.bs != 0 && SinceGrant(past) == g.bs
  }

  /** May `e` follow `past`? */
  predicate EventOk(cfg: TxCfg, past: seq<Event>, e: Event)
    requires cfg.Valid()
  {
    match e
    case Sent(f, at) =>
      var k := |Frames(past)|;
      && k < cfg.Total() && f == cfg.Frame(k)
      && (k > 0 ==>
            && LastGrant(past).Some?
            && var g := LastGrant(past).value;
               && (g.bs != 0 ==> SinceGrant(past) < g.bs)
               && (SinceGrant(past) > 0 ==> at >= LastArmed(past) + DecodeStmin(g.stmin)))
    case Granted(_, _, _) => BlockOver(cfg, past)
    case Waited(_) =>
      && BlockOver(cfg, past)
      && (cfg.wftMax < 255 && Clean(past) ==> WaitsSinceGrant(past) < cfg.wftMax)
    case Failed(error, at) =>
      && BlockOver(cfg, past)
      && (error == FcTimeout ==> at >= LastArmed(past) + cfg.nBs)
      && (error.WaitLimit? ==> cfg.wftMax < 255 && (Clean(past) ==> WaitsSinceGrant(past) == cfg.wftMax))
  }

  predicate TraceOk(cfg: TxCfg, trace: seq<Event>)
    requires cfg.Valid()
  {
    forall i :: 0 <= i < |trace| ==> EventOk(cfg, trace[..i], trace[i])
  }

  /** What the machine's fields mean in terms of the trace. */
  predicate Coupled(t: Tx, trace: seq<Event>)
    requires t.Inv()
  {
    && t.sent == |Frames(trace)|
    && (match LastGrant(trace)
        case None => t.bs == 0 && (t.phase.Start? || t.phase.AwaitFc? || t.phase.Finished?)
        case Some(g) => t.bs == g.bs && t.gap == DecodeStmin(g.stmin))
    && (t.phase.Start? ==> trace == [])
    && (t.phase.AwaitFc? ==> BlockOver(t.cfg, trace) && t.phase.deadline == LastArmed(trace) + t.cfg.nBs)
    && (t.phase.Consecutive? ==>
          && t.block == SinceGrant(trace)
          && (t.block > 0 ==> t.phase.earliest == LastArmed(trace) + t.gap))
    && (Clean(trace) && t.cfg.wftMax < 255 ==> t.waits == WaitsSinceGrant(trace) <= t.cfg.wftMax)
  }

  lemma Append(trace: seq<Event>, e: Event)
    ensures var next := trace + [e];
            && Frames(next) == Frames(trace) + (if e.Sent? then [e.frame] else [])
            && LastGrant(next) == (if e.Granted? then Some(Grant(e.bs, e.stmin)) else LastGrant(trace))
            && SinceGrant(next) == (if e.Granted? then 0 else SinceGrant(trace) + if e.Sent? then 1 else 0)
            && WaitsSinceGrant(next) == (if e.Granted? then 0 else WaitsSinceGrant(trace) + if e.Waited? then 1 else 0)
            && LastArmed(next) == (if e.Sent? || e.Waited? then e.at else LastArmed(trace))
            && (Clean(next) <==> Clean(trace) && !e.Failed?)
  {
    assert (trace + [e])[..|trace|] == trace;
  }

  lemma SendCoupled(t: Tx, trace: seq<Event>, now: Time)
    requires t.Inv() && Coupled(t, trace)
    requires t.phase.Start? || (t.phase.Consecutive? && now >= t.phase.earliest)
    ensures var e := Sent(t.cfg.Frame(t.sent), now);
            EventOk(t.cfg, trace, e) && Coupled(TxNext(t, now).tx, trace + [e])
  {
    assert t.phase.Start? ==> LastGrant(trace) == None && Frames(trace) == [];
    hide FrameAt, DecodeStmin, Frames, LastGrant, SinceGrant, WaitsSinceGrant, LastArmed, Clean;
    Append(trace, Sent(t.cfg.Frame(t.sent), now));
  }

  lemma TimeoutCoupled(t: Tx, trace: seq<Event>, now: Time)
    requires t.Inv() && Coupled(t, trace) && t.phase.AwaitFc? && now >= t.phase.deadline
    ensures EventOk(t.cfg, trace, Failed(FcTimeout, now)) && Coupled(t, trace + [Failed(FcTimeout, now)])
  {
    hide FrameAt, DecodeStmin, Frames, LastGrant, SinceGrant, WaitsSinceGrant, LastArmed, Clean;
    Append(trace, Failed(FcTimeout, now));
  }

  lemma PollCoupled(t: Tx, trace: seq<Event>, now: Time)
    requires t.Inv() && Coupled(t, trace)
    ensures var s := Step(t, Poll(now));
            && Coupled(s.tx, trace + s.trace)
            && |s.trace| <= 1
            && (s.trace != [] ==> EventOk(t.cfg, trace, s.trace[0]))
  {
    hide FrameAt, FrameCount, Coupled, EventOk;
    if t.phase.Start? || (t.phase.Consecutive? && now >= t.phase.earliest) {
      SendCoupled(t, trace, now);
      assert Step(t, Poll(now)).trace == [Sent(t.cfg.Frame(t.sent), now)];
    } else if t.phase.AwaitFc? && now >= t.phase.deadline {
      TimeoutCoupled(t, trace, now);
    } else {
      assert trace + [] == trace;
    }
  }

  lemma RecvCoupled(t: Tx, trace: seq<Event>, data: Bytes, now: Time)
    requires t.Inv() && Coupled(t, trace)
    ensures var s := Step(t, Recv(data, now));
            && Coupled(s.tx, trace + s.trace)
            && |s.trace| <= 1
            && (s.trace != [] ==> EventOk(t.cfg, trace, s.trace[0]))
  {
    hide FrameAt, DecodeStmin, ParseFc, Frames, LastGrant, SinceGrant, WaitsSinceGrant, LastArmed, Clean;
    var s := Step(t, Recv(data, now));
    if s.trace == [] {
      assert trace + s.trace == trace;
    } else {
      assert s.trace == [s.trace[0]];
      Append(trace, s.trace[0]);
    }
  }

  lemma StepCoupled(t: Tx, trace: seq<Event>, i: Input)
    requires t.Inv() && Coupled(t, trace)
    ensures var s := Step(t, i);
            && Coupled(s.tx, trace + s.trace)
            && |s.trace| <= 1
            && (s.trace != [] ==> EventOk(t.cfg, trace, s.trace[0]))
  {
    hide Step, Coupled, EventOk;
    match i
    case Poll(now) => PollCoupled(t, trace, now);
    case Recv(data, now) => RecvCoupled(t, trace, data, now);
  }

  /** Every run of every transmitter produces a trace that obeys the rules. */
  lemma {:induction false} TraceSound(cfg: TxCfg, ins: seq<Input>)
    requires cfg.Valid()
    ensures TraceOk(cfg, RunFrom(cfg, ins).trace)
    ensures Coupled(RunFrom(cfg, ins).tx, RunFrom(cfg, ins).trace)
  {
    if ins != [] {
      TraceSound(cfg, ins[..|ins| - 1]);
      var before := RunFrom(cfg, ins[..|ins| - 1]);
      var s := Step(before.tx, ins[|ins| - 1]);
      StepCoupled(before.tx, before.trace, ins[|ins| - 1]);
      var trace := before.trace + s.trace;
      forall i | 0 <= i < |trace| ensures EventOk(cfg, trace[..i], trace[i]) {
        if i < |before.trace| {
          assert trace[..i] == before.trace[..i];
        } else {
          assert trace[..i] == before.trace;
        }
      }
    }
  }

  /** The frames sent are always a prefix of the segmentation, whatever the peer does. */
  lemma {:induction false} SentIsPrefix(cfg: TxCfg, trace: seq<Event>)
    requires cfg.Valid() && TraceOk(cfg, trace)
    ensures |Frames(trace)| <= cfg.Total()
    ensures Frames(trace) == Segment(cfg.payload, cfg.padding, cfg.addr)[..|Frames(trace)|]
  {
    if trace != [] {
      var past, e := trace[..|trace| - 1], trace[|trace| - 1];
      forall i | 0 <= i < |past| ensures EventOk(cfg, past[..i], past[i]) {
        assert past[..i] == trace[..i];
      }
      SentIsPrefix(cfg, past);
      assert EventOk(cfg, past, e);
      assert Frames(trace) == Frames(past) + if e.Sent? then [e.frame] else [];
      hide Frames, FrameAt, FrameCount;
      if e.Sent? {
        NextSent(cfg, Frames(past));
      }
    }
  }

  lemma TransmitRefinesSegment(cfg: TxCfg, ins: seq<Input>)
    requires cfg.Valid()
    ensures var r := RunFrom(cfg, ins);
            && Frames(r.trace) == Segment(cfg.payload, cfg.padding, cfg.addr)[..r.tx.sent]
            && (r.tx.phase.Finished? <==> Frames(r.trace) == Segment(cfg.payload, cfg.padding, cfg.addr))
  {
    TraceSound(cfg, ins);
    SentIsPrefix(cfg, RunFrom(cfg, ins).trace);
    var fs := Segment(cfg.payload, cfg.padding, cfg.addr);
    assert fs[..|fs|] == fs;
  }

  lemma {:induction false} InBlock(trace: seq<Event>, i: nat, j: nat)
    requires i < j <= |trace| && trace[i].Granted? && forall m :: i < m < j ==> trace[m].Sent?
    ensures LastGrant(trace[..j]) == Some(Grant(trace[i].bs, trace[i].stmin))
    ensures SinceGrant(trace[..j]) == j - i - 1
  {
    assert trace[..j][..j - 1] == trace[..j - 1];
    if i + 1 < j {
      InBlock(trace, i, j - 1);
    }
  }

  lemma EventAt(cfg: TxCfg, ins: seq<Input>, j: nat)
    requires cfg.Valid() && j < |RunFrom(cfg, ins).trace|
    ensures EventOk(cfg, RunFrom(cfg, ins).trace[..j], RunFrom(cfg, ins).trace[j])
  {
    TraceSound(cfg, ins);
  }

  /** A grant of `b` is followed by exactly `b` frames before the next wait; a grant of 0 by no wait at all. */
  lemma BlockIsExact(cfg: TxCfg, ins: seq<Input>, i: nat, j: nat)
    requires cfg.Valid()
    requires var trace := RunFrom(cfg, ins).trace;
             && i < j < |trace| && trace[i].Granted? && !trace[j].Sent?
             && forall m :: i < m < j ==> trace[m].Sent?
    ensures var trace := RunFrom(cfg, ins).trace;
            trace[i].bs != 0 && j - i - 1 == trace[i].bs
  {
    var trace := RunFrom(cfg, ins).trace;
    EventAt(cfg, ins, j);
    InBlock(trace, i, j);
  }

  lemma {:induction false} SincePositive(trace: seq<Event>)
    ensures SinceGrant(trace) <= |Frames(trace)|
  {
    if trace != [] {
      SincePositive(trace[..|trace| - 1]);
    }
  }

  lemma PacedEvent(cfg: TxCfg, past: seq<Event>, e: Event, g: Grant)
    requires cfg.Valid() && EventOk(cfg, past, e) && e.Sent?
    requires LastGrant(past) == Some(g) && SinceGrant(past) > 0 && Frames(past) != []
    ensures e.at >= LastArmed(past) + DecodeStmin(g.stmin)
  {
  }

  /** Two frames of one block are at least the granted STmin apart, on any clock. */
  lemma PacingHolds(cfg: TxCfg, ins: seq<Input>, i: nat, j: nat)
    requires cfg.Valid()
    requires var trace := RunFrom(cfg, ins).trace;
             i + 1 < j < |trace| && trace[i].Granted? && forall m :: i < m <= j ==> trace[m].Sent?
    ensures var trace := RunFrom(cfg, ins).trace;
            trace[j].at >= trace[j - 1].at + DecodeStmin(trace[i].stmin)
  {
    var trace := RunFrom(cfg, ins).trace;
    EventAt(cfg, ins, j);
    InBlock(trace, i, j);
    SincePositive(trace[..j]);
    PacedEvent(cfg, trace[..j], trace[j], Grant(trace[i].bs, trace[i].stmin));
    assert trace[..j][|trace[..j]| - 1] == trace[j - 1];
  }

  // ---- WAIT limit and counter overflow --------------------------------------

  /** `m` WAIT frames in a row are all honoured. */
  predicate WaitsHonoured(t: Tx, f: Bytes, times: seq<Time>)
    requires t.Inv()
    decreases |times|
  {
    times == []
    || var s := TxOnFrame(t, f, times[0]);
       s.res.Ok? && WaitsHonoured(s.tx, f, times[1..])
  }

  /**
   The limit on consecutive WAITs holds exactly when it is below 255: at 255 the
   8-bit counter wraps to 0 instead of passing it, and no number of WAITs is refused.
   */
  lemma {:induction false} WaitLimitExact(t: Tx, f: Bytes, times: seq<Time>)
    requires t.Inv() && t.phase.AwaitFc? && ParseFc(t.cfg.addr, f) == Wait
    requires t.waits <= t.cfg.wftMax
    ensures WaitsHonoured(t, f, times) <==> t.waits + |times| <= t.cfg.wftMax || t.cfg.wftMax == 255
    decreases |times|
  {
    if times != [] {
      var s := TxOnFrame(t, f, times[0]);
      if s.res.Ok? {
        WaitLimitExact(s.tx, f, times[1..]);
      }
    }
  }

  /** The counter of the transmitter, and the frame count that bounds it. */
  lemma {:induction false} BlockWithinTotal(cfg: TxCfg, ins: seq<Input>)
    requires cfg.Valid()
    ensures var t := RunFrom(cfg, ins).tx;
            && (t.block == 0 || t.block + 2 <= cfg.Total())
            && (t.phase.AwaitFc? || t.phase.Consecutive? ==> t.block + 1 <= t.sent)
  {
    hide FrameAt, FrameCount, ParseFc, DecodeStmin;
    if ins != [] {
      BlockWithinTotal(cfg, ins[..|ins| - 1]);
    }
  }

  lemma RunStep(cfg: TxCfg, ins: seq<Input>, i: Input)
    requires cfg.Valid()
    ensures var before := RunFrom(cfg, ins);
            var s := Step(before.tx, i);
            RunFrom(cfg, ins + [i]) == Run(s.tx, before.trace + s.trace)
  {
    assert (ins + [i])[..|ins|] == ins;
  }

  lemma PlainGrant(cfg: TxCfg)
    requires cfg.Valid()
    ensures ParseFc(cfg.addr, StartFrame(cfg.addr) + [0x30, 0, 0]) == Cts(0, 0) && DecodeStmin(0) == 0
    ensures RunFrom(cfg, []).tx == TxInit(cfg)
  {
  }

  /** A peer that grants an unlimited block lets the counter run through it. */
  lemma {:induction false} UnlimitedBlock(cfg: TxCfg, k: nat) returns (ins: seq<Input>)
    requires cfg.Valid() && k + 2 <= cfg.Total()
    ensures var t := RunFrom(cfg, ins).tx;
            t.phase == Consecutive(0) && t.bs == 0 && t.gap == 0 && t.block == k && t.sent == k + 1
  {
    hide FrameAt, FrameCount, ParseFc, DecodeStmin, RunFrom;
    if k == 0 {
      var grant := Recv(StartFrame(cfg.addr) + [0x30, 0, 0], 0);
      PlainGrant(cfg);
      RunStep(cfg, [], Poll(0));
      RunStep(cfg, [] + [Poll(0)], grant);
      ins := [] + [Poll(0)] + [grant];
    } else {
      ins := UnlimitedBlock(cfg, k - 1);
      RunStep(cfg, ins, Poll(0));
      ins := ins + [Poll(0)];
    }
  }

  /**
   The transmitter's 8-bit counter overflows in some run if and only if the payload is this
   long. `block` is the true count that the counter is taken modulo 256 of.
   */
  lemma CounterWrapsExactly(cfg: TxCfg)
    requires cfg.Valid()
    ensures (exists ins :: RunFrom(cfg, ins).tx.block >= 256)
            <==> |cfg.payload| >= if cfg.addr.None? then 1799 else 1542
  {
    hide RunFrom;
    if ins :| RunFrom(cfg, ins).tx.block >= 256 {
      BlockWithinTotal(cfg, ins);
    }
    if cfg.Total() >= 258 {
      var ins := UnlimitedBlock(cfg, 256);
    }
  }

  lemma SmallMod(x: nat)
    ensures x < 256 ==> x % 256 == x
  {
  }

  /** A wrapped counter is never consulted: with a block size in force it equals the true count. */
  lemma WrapIsHarmless(cfg: TxCfg, ins: seq<Input>)
    requires cfg.Valid()
    ensures var r := RunFrom(cfg, ins);
            r.tx.phase.Consecutive? && r.tx.bs != 0 ==> SinceGrant(r.trace) % 256 == SinceGrant(r.trace) < r.tx.bs
  {
    TraceSound(cfg, ins);
    SmallMod(SinceGrant(RunFrom(cfg, ins).trace));
  }
}
