/**
 What other traffic on the bus does to the host drivers: it takes time, and nothing else.
 Each driver is compared with one that has no clock and sees only the replies that concern
 it; the two agree until a deadline passes. Which writes succeed is the same for both.
 */
module IsoTpTraffic {
  import opened Prelude
  import opened IsoTpFrames
  import opened IsoTpSteps
  import opened IsoTpHost

  /** The replies among the polls that satisfy `concerns`, in order. */
  function Picked(concerns: Reply -> bool, log: seq<Polled>): seq<Reply> {
    if log == [] then []
    else
      var r := log[|log| - 1].reply;
      Picked(concerns, log[..|log| - 1]) + if concerns(r) then [r] else []
  }

  lemma {:induction false} PickedAppend(concerns: Reply -> bool, a: seq<Polled>, b: seq<Polled>)
    ensures Picked(concerns, a + b) == Picked(concerns, a) + Picked(concerns, b)
  {
    if b == [] {
      Unit(a);
      Unit(Picked(concerns, a));
    } else {
      var init, r := b[..|b| - 1], b[|b| - 1].reply;
      PickedAppend(concerns, a, init);
      assert (a + b)[..|a + b| - 1] == a + init;
      Assoc(Picked(concerns, a), Picked(concerns, init), if concerns(r) then [r] else []);
    }
  }

  lemma {:induction false} PickedNone(concerns: Reply -> bool, log: seq<Polled>)
    requires forall p :: p in log ==> !concerns(p.reply)
    ensures Picked(concerns, log) == []
  {
    if log != [] {
      PickedNone(concerns, log[..|log| - 1]);
      assert log[|log| - 1] in log;
    }
  }

  /** Whatever polls are put in between, at whatever times, the replies picked stay the same if none of those is. */
  lemma ForeignAddsNothing(concerns: Reply -> bool, a: seq<Polled>, foreign: seq<Polled>, b: seq<Polled>)
    requires forall p :: p in foreign ==> !concerns(p.reply)
    ensures Picked(concerns, a + foreign + b) == Picked(concerns, a + b)
  {
    PickedAppend(concerns, a + foreign, b);
    PickedAppend(concerns, a, foreign);
    PickedAppend(concerns, a, b);
    PickedNone(concerns, foreign);
    Unit(Picked(concerns, a));
  }

  // ---- receiving ------------------------------------------------------------

  /** The replies that concern a receiver: frames for it, and a broken bus. */
  function ForReceiver(cfg: HostCfg): Reply -> bool {
    (r: Reply) => cfg.Mine(r) || r.Broken?
  }

  datatype Heeding = Heeding(rx: Rx, fcs: seq<Bytes>, verdict: Verdict<Bytes>)

  function Heed(cfg: HostCfg, w: nat -> Written, h: Heeding, r: Reply): (h': Heeding)
    requires h.rx.Inv(cfg.rxBs)
    ensures h'.rx.Inv(cfg.rxBs)
  {
    if r.Broken? then h.(verdict := Some(Err(Device)))
    else
      var step := RxOnFrame(cfg.Rx(), h.rx, Body(r), 0);
      if !Grants(step.res) then Heeding(step.rx, h.fcs, Ruling(step.res))
      else Heeding(step.rx, h.fcs + [step.res.value.fc], if w(|h.fcs|).ok then None else Some(Err(Device)))
  }

  /** A receiver that has no clock, given these replies. */
  function Heeded(cfg: HostCfg, w: nat -> Written, replies: seq<Reply>): (h: Heeding)
    ensures h.rx.Inv(cfg.rxBs)
  {
    if replies == [] then Heeding(Idle, [], None)
    else
      var h := Heeded(cfg, w, replies[..|replies| - 1]);
      if h.verdict.Some? then h else Heed(cfg, w, h, replies[|replies| - 1])
  }

  /** The same transfer, deadlines aside. */
  predicate SameTransfer(s: Rx, t: Rx) {
    match s
    case Idle => t.Idle?
    case Receiving(dl, buf, cfs, block, _) =>
      t == Receiving(dl, buf, cfs, block, if t.Receiving? then t.deadline else 0)
  }

  lemma FrameIsTimeless(cfg: RxCfg, s: Rx, t: Rx, f: Bytes, now: Time, later: Time)
    requires SameTransfer(s, t) && s.Inv(cfg.bs) && t.Inv(cfg.bs)
    ensures var (a, b) := (RxOnFrame(cfg, s, f, now), RxOnFrame(cfg, t, f, later));
            a.res == b.res && SameTransfer(a.rx, b.rx)
  {
    hide Parse, Cut, FlowControl, Mod16;
  }

  /** A deadline decided, not a frame. */
  predicate RanOut(v: Verdict<Bytes>) {
    v == Some(Err(TimedOut)) || v == Some(Err(Protocol(CfTimeout)))
  }

  ghost predicate Agree(s: RecvState, h: Heeding) {
    if RanOut(s.verdict) then FramesOf(s.fcs) <= h.fcs
    else && s.verdict == h.verdict && FramesOf(s.fcs) == h.fcs
         && (s.verdict == None ==> SameTransfer(s.rx, h.rx))
  }

  lemma AgreeAtFirst(start: Time, timeout: Time)
    ensures Agree(Check(RecvState(Idle, start, [], None), start + timeout), Heeding(Idle, [], None))
  {
  }

  lemma AgreeOnForeign(cfg: HostCfg, w: nat -> Written, s: RecvState, h: Heeding, p: Polled, deadline: Time)
    requires Agree(s, h) && s.rx.Inv(cfg.rxBs) && !ForReceiver(cfg)(p.reply)
    ensures s.verdict == None ==> Agree(Check(RecvPoll(cfg, w, s, p), deadline), h)
  {
    hide FramesOf;
  }

  lemma AgreeOnReply(cfg: HostCfg, w: nat -> Written, s: RecvState, h: Heeding, p: Polled, deadline: Time)
    requires Agree(s, h) && s.rx.Inv(cfg.rxBs) && h.rx.Inv(cfg.rxBs) && ForReceiver(cfg)(p.reply)
    ensures var h' := if h.verdict.Some? then h else Heed(cfg, w, h, p.reply);
            Agree(if s.verdict.Some? then s else Check(RecvPoll(cfg, w, s, p), deadline), h')
  {
    hide RxOnFrame, HostCfg.Mine, Body;
    if s.verdict == None && !p.reply.Broken? {
      var now := s.clock + p.took;
      FrameIsTimeless(cfg.Rx(), s.rx, h.rx, Body(p.reply), now, 0);
      var res := RxOnFrame(cfg.Rx(), s.rx, Body(p.reply), now).res;
      if Grants(res) {
        FramesAppend(s.fcs, [Stamp(res.value.fc, now)]);
      }
    }
  }

  lemma {:induction false} RecvHeeds(cfg: HostCfg, x: Setting, timeout: Time, log: seq<Polled>)
    ensures Agree(RecvAfter(cfg, x, timeout, log), Heeded(cfg, x.writes, Picked(ForReceiver(cfg), log)))
  {
    hide Agree, RecvPoll, Check, Heed, HostCfg.Mine;
    if log == [] {
      AgreeAtFirst(x.start, timeout);
    } else {
      var before, p := log[..|log| - 1], log[|log| - 1];
      RecvHeeds(cfg, x, timeout, before);
      var s, picked := RecvAfter(cfg, x, timeout, before), Picked(ForReceiver(cfg), before);
      if ForReceiver(cfg)(p.reply) {
        var more := picked + [p.reply];
        assert more[..|more| - 1] == picked;
        AgreeOnReply(cfg, x.writes, s, Heeded(cfg, x.writes, picked), p, x.start + timeout);
      } else {
        Unit(picked);
        AgreeOnForeign(cfg, x.writes, s, Heeded(cfg, x.writes, picked), p, x.start + timeout);
      }
    }
  }

  /**
   Frames with another identifier, another address byte or an indication flag, and any
   timing, change neither what `host_recv` returns nor the flow control it sends, unless
   time runs out; then what it has sent is the beginning of what it would have sent.
   */
  lemma RecvIgnoresForeign(cfg: HostCfg, x: Setting, timeout: Time, log: seq<Polled>)
    ensures var s := RecvAfter(cfg, x, timeout, log);
            var h := Heeded(cfg, x.writes, Picked(ForReceiver(cfg), log));
            && FramesOf(s.fcs) <= h.fcs
            && (!RanOut(s.verdict) ==> s.verdict == h.verdict && FramesOf(s.fcs) == h.fcs)
  {
    RecvHeeds(cfg, x, timeout, log);
  }

  /** The same writes succeed, whenever they are made and however long they take. */
  ghost predicate SameWrites(w: nat -> Written, w': nat -> Written) {
    forall k: nat :: w(k).ok == w'(k).ok
  }

  lemma {:induction false} HeededBy(cfg: HostCfg, w: nat -> Written, w': nat -> Written, replies: seq<Reply>)
    requires SameWrites(w, w')
    ensures Heeded(cfg, w, replies) == Heeded(cfg, w', replies)
  {
    hide RxOnFrame, Body;
    if replies != [] {
      HeededBy(cfg, w, w', replies[..|replies| - 1]);
    }
  }

  /**
   Two logs with the same replies for the receiver, whatever else is in them and whenever:
   same result, same flow control.
   */
  lemma RecvUnmoved(
    cfg: HostCfg, x: Setting, timeout: Time, log: seq<Polled>, x': Setting, timeout': Time, log': seq<Polled>)
    requires Picked(ForReceiver(cfg), log) == Picked(ForReceiver(cfg), log') && SameWrites(x.writes, x'.writes)
    requires !RanOut(RecvAfter(cfg, x, timeout, log).verdict) && !RanOut(RecvAfter(cfg, x', timeout', log').verdict)
    ensures RecvAfter(cfg, x, timeout, log).verdict == RecvAfter(cfg, x', timeout', log').verdict
    ensures FramesOf(RecvAfter(cfg, x, timeout, log).fcs) == FramesOf(RecvAfter(cfg, x', timeout', log').fcs)
  {
    RecvIgnoresForeign(cfg, x, timeout, log);
    RecvIgnoresForeign(cfg, x', timeout', log');
    HeededBy(cfg, x.writes, x'.writes, Picked(ForReceiver(cfg), log));
  }

  // ---- sending --------------------------------------------------------------

  /** The replies that concern a sender: flow control for it, and a broken bus. */
  function ForSender(cfg: HostCfg): Reply -> bool {
    (r: Reply) => r.Broken? || (cfg.Mine(r) && ParseFc(cfg.ext, Body(r)) != NotFc)
  }

  datatype Pushing = Pushing(t: Tx, frames: seq<Bytes>, verdict: Verdict<()>)

  /** The moment the next frame may go out. */
  function DueAt(t: Tx): Time {
    if t.phase.Consecutive? then t.phase.earliest else 0
  }

  /** Everything that may be sent before the next flow control. */
  function Push(t: Tx, w: nat -> Written): (s: Pushing)
    requires t.Inv()
    ensures s.t.Inv() && s.t.cfg == t.cfg && (s.verdict == None ==> s.t.phase.AwaitFc?)
    decreases t.cfg.Total() - t.sent
  {
    if t.phase.AwaitFc? then Pushing(t, [], None)
    else if t.phase.Finished? then Pushing(t, [], Some(Ok(())))
    else
      var next := TxNext(t, DueAt(t)).tx;
      if !w(t.sent).ok then Pushing(next, [t.cfg.Frame(t.sent)], Some(Err(Device)))
      else
        var rest := Push(next, w);
        rest.(frames := [t.cfg.Frame(t.sent)] + rest.frames)
  }

  function Answer(w: nat -> Written, s: Pushing, r: Reply): (s': Pushing)
    requires s.t.Inv()
    ensures s'.t.Inv() && s'.t.cfg == s.t.cfg && (s'.verdict == None ==> s'.t.phase.AwaitFc?)
  {
    if r.Broken? then s.(verdict := Some(Err(Device)))
    else
      var fed := TxOnFrame(s.t, Body(r), 0);
      if fed.res.Err? then s.(t := fed.tx, verdict := Some(Err(Protocol(fed.res.error))))
      else
        var next := Push(fed.tx, w);
        next.(frames := s.frames + next.frames)
  }

  /** A sender that has no clock, given these replies. */
  function Answered(cfg: HostCfg, payload: Bytes, w: nat -> Written, replies: seq<Reply>): (s: Pushing)
    requires Sendable(payload)
    ensures s.t.Inv() && s.t.cfg == cfg.Tx(payload) && (s.verdict == None ==> s.t.phase.AwaitFc?)
  {
    if replies == [] then Push(TxInit(cfg.Tx(payload)), w)
    else
      var s := Answered(cfg, payload, w, replies[..|replies| - 1]);
      if s.verdict.Some? then s else Answer(w, s, replies[|replies| - 1])
  }

  /** The same progress, times aside. */
  predicate SameProgress(t: Tx, u: Tx) {
    && u == t.(phase := u.phase)
    && match t.phase
       case Start => u.phase.Start?
       case AwaitFc(_) => u.phase.AwaitFc?
       case Consecutive(_) => u.phase.Consecutive?
       case Finished => u.phase.Finished?
  }

  lemma FcIsTimeless(t: Tx, u: Tx, f: Bytes, now: Time, later: Time)
    requires t.Inv() && u.Inv() && SameProgress(t, u)
    ensures var (a, b) := (TxOnFrame(t, f, now), TxOnFrame(u, f, later));
            a.res == b.res && SameProgress(a.tx, b.tx)
  {
    hide ParseFc, DecodeStmin, FrameCount;
  }

  predicate FcRanOut(v: Verdict<()>) {
    v == Some(Err(Protocol(FcTimeout)))
  }

  lemma FrameFirst(stamp: Stamp, rest: seq<Stamp>)
    ensures FramesOf([stamp] + rest) == [stamp.frame] + FramesOf(rest)
  {
  }

  lemma NoFrames()
    ensures FramesOf([]) == []
  {
  }

  /**
   Driving against the clock sends what may be sent, no less and no more; the clock can only end
   the wait after it.
   */
  lemma {:induction false} DriveIsPush(t: Tx, u: Tx, clock: Time, w: nat -> Written)
    requires t.Inv() && u.Inv() && SameProgress(t, u)
    ensures var (s, p) := (Drive(t, clock, w), Push(u, w));
            && FramesOf(s.out) == p.frames
            && if FcRanOut(s.verdict) then p.verdict == None
               else s.verdict == p.verdict && SameProgress(s.t, p.t)
    decreases t.cfg.Total() - t.sent, TimeLeft(t, clock)
  {
    hide FrameAt, FrameCount, FramesOf, Drive;
    var n := TxNext(t, clock);
    DriveStep(t, clock, w);
    NoFrames();
    if n.res.Ok? && n.res.value.WaitUntil? {
      DriveIsPush(t, u, Max(clock, n.res.value.until), w);
    } else if n.res.Ok? && n.res.value.Send? {
      var stamp, later := Stamp(n.res.value.frame, clock), clock + w(t.sent).took;
      if w(t.sent).ok {
        DriveIsPush(n.tx, TxNext(u, DueAt(u)).tx, later, w);
        FrameFirst(stamp, Drive(n.tx, later, w).out);
      } else {
        FrameFirst(stamp, []);
        Unit([stamp]);
        Unit([stamp.frame]);
      }
    }
  }

  ghost predicate InAccord(s: SendState, p: Pushing) {
    if FcRanOut(s.verdict) then FramesOf(s.out) <= p.frames
    else && s.verdict == p.verdict && FramesOf(s.out) == p.frames
         && (s.verdict == None ==> SameProgress(s.t, p.t))
  }

  lemma AccordFromDrive(t: Tx, u: Tx, clock: Time, w: nat -> Written, out: seq<Stamp>)
    requires t.Inv() && u.Inv() && SameProgress(t, u)
    ensures var (s, p) := (Drive(t, clock, w), Push(u, w));
            InAccord(s.(out := out + s.out), p.(frames := FramesOf(out) + p.frames))
  {
    hide Drive, Push, SameProgress, FramesOf;
    DriveIsPush(t, u, clock, w);
    FramesAppend(out, Drive(t, clock, w).out);
  }

  lemma MorePushed(w: nat -> Written, p: Pushing, r: Reply)
    requires p.t.Inv()
    ensures p.frames <= Answer(w, p, r).frames
  {
    hide Push, TxOnFrame;
  }

  lemma AccordOnReply(cfg: HostCfg, w: nat -> Written, s: SendState, p: Pushing, polled: Polled)
    requires s.Inv() && p.t.Inv() && InAccord(s, p) && ForSender(cfg)(polled.reply)
    ensures var p' := if p.verdict.Some? then p else Answer(w, p, polled.reply);
            InAccord(if s.verdict.Some? then s else SendPoll(cfg, w, s, polled), p')
  {
    hide Drive, Push, TxOnFrame, SameProgress, HostCfg.Mine, ParseFc, FramesOf;
    if s.verdict == None && !polled.reply.Broken? {
      var f, now := Body(polled.reply), s.clock + polled.took;
      FcIsTimeless(s.t, p.t, f, now, 0);
      if TxOnFrame(s.t, f, now).res.Ok? {
        AccordFromDrive(TxOnFrame(s.t, f, now).tx, TxOnFrame(p.t, f, 0).tx, now, w, s.out);
      }
    } else if FcRanOut(s.verdict) && p.verdict == None {
      MorePushed(w, p, polled.reply);
    }
  }

  lemma AccordOnForeign(cfg: HostCfg, w: nat -> Written, s: SendState, p: Pushing, polled: Polled)
    requires s.Inv() && p.t.Inv() && InAccord(s, p) && !ForSender(cfg)(polled.reply)
    requires s.verdict == None && s.t.cfg.addr == cfg.ext
    requires s.t.phase.AwaitFc?
    ensures InAccord(SendPoll(cfg, w, s, polled), p)
  {
    hide SameProgress, HostCfg.Mine, ParseFc, FrameCount, FrameAt, FramesOf;
    Unit(s.out);
  }

  lemma AccordAtFirst(cfg: HostCfg, payload: Bytes, x: Setting)
    requires Sendable(payload)
    ensures var t := TxInit(cfg.Tx(payload));
            InAccord(Drive(t, x.start, x.writes), Push(t, x.writes))
  {
    hide Drive, Push;
    DriveIsPush(TxInit(cfg.Tx(payload)), TxInit(cfg.Tx(payload)), x.start, x.writes);
  }

  lemma {:induction false} SendHeeds(cfg: HostCfg, payload: Bytes, x: Setting, log: seq<Polled>)
    requires Sendable(payload)
    ensures InAccord(SendAfter(cfg, payload, x, log), Answered(cfg, payload, x.writes, Picked(ForSender(cfg), log)))
  {
    hide InAccord, SendPoll, Answer, Drive, Push, HostCfg.Mine, ParseFc;
    if log == [] {
      AccordAtFirst(cfg, payload, x);
    } else {
      var before, p := log[..|log| - 1], log[|log| - 1];
      SendHeeds(cfg, payload, x, before);
      var s, picked := SendAfter(cfg, payload, x, before), Picked(ForSender(cfg), before);
      if ForSender(cfg)(p.reply) {
        var more := picked + [p.reply];
        assert more[..|more| - 1] == picked;
        AccordOnReply(cfg, x.writes, s, Answered(cfg, payload, x.writes, picked), p);
      } else {
        Unit(picked);
        if s.verdict == None {
          AccordOnForeign(cfg, x.writes, s, Answered(cfg, payload, x.writes, picked), p);
        }
      }
    }
  }

  /**
   Any traffic but flow control for this endpoint, and any timing, changes neither what
   `host_send` sends nor its result, unless N_Bs runs out; then what it has sent is the
   beginning of what it would have sent.
   */
  lemma SendIgnoresForeign(cfg: HostCfg, payload: Bytes, x: Setting, log: seq<Polled>)
    requires Sendable(payload)
    ensures var s := SendAfter(cfg, payload, x, log);
            var p := Answered(cfg, payload, x.writes, Picked(ForSender(cfg), log));
            && FramesOf(s.out) <= p.frames
            && (!FcRanOut(s.verdict) ==> s.verdict == p.verdict && FramesOf(s.out) == p.frames)
  {
    SendHeeds(cfg, payload, x, log);
  }

  lemma {:induction false} PushBy(t: Tx, w: nat -> Written, w': nat -> Written)
    requires t.Inv() && SameWrites(w, w')
    ensures Push(t, w) == Push(t, w')
    decreases t.cfg.Total() - t.sent
  {
    hide FrameAt, FrameCount;
    if !t.phase.AwaitFc? && !t.phase.Finished? {
      PushBy(TxNext(t, DueAt(t)).tx, w, w');
    }
  }

  lemma {:induction false} AnsweredBy(
    cfg: HostCfg, payload: Bytes, w: nat -> Written, w': nat -> Written, replies: seq<Reply>)
    requires Sendable(payload) && SameWrites(w, w')
    ensures Answered(cfg, payload, w, replies) == Answered(cfg, payload, w', replies)
  {
    hide Push, TxOnFrame, Body, SameWrites;
    if replies == [] {
      PushBy(TxInit(cfg.Tx(payload)), w, w');
    } else {
      var r := replies[|replies| - 1];
      AnsweredBy(cfg, payload, w, w', replies[..|replies| - 1]);
      PushBy(TxOnFrame(Answered(cfg, payload, w, replies[..|replies| - 1]).t, Body(r), 0).tx, w, w');
    }
  }

  /**
   Two logs with the same flow control for the sender, whatever else is in them and whenever:
   same result, same frames.
   */
  lemma SendUnmoved(cfg: HostCfg, payload: Bytes, x: Setting, log: seq<Polled>, x': Setting, log': seq<Polled>)
    requires Sendable(payload) && Picked(ForSender(cfg), log) == Picked(ForSender(cfg), log')
    requires SameWrites(x.writes, x'.writes)
    requires !FcRanOut(SendAfter(cfg, payload, x, log).verdict)
    requires !FcRanOut(SendAfter(cfg, payload, x', log').verdict)
    ensures SendAfter(cfg, payload, x, log).verdict == SendAfter(cfg, payload, x', log').verdict
    ensures FramesOf(SendAfter(cfg, payload, x, log).out) == FramesOf(SendAfter(cfg, payload, x', log').out)
  {
    SendIgnoresForeign(cfg, payload, x, log);
    SendIgnoresForeign(cfg, payload, x', log');
    AnsweredBy(cfg, payload, x.writes, x'.writes, Picked(ForSender(cfg), log));
  }
}
