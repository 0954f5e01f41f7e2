/**
 A transmitter and a receiver joined by two lossless first-in first-out queues,
 under any interleaving and any clock that misses no deadline.
 */
module IsoTpSystem {
  import opened Prelude
  import opened IsoTpFrames
  import opened IsoTpSteps

  datatype Link = Link(tx: TxCfg, rx: RxCfg) {
    predicate Valid() {
      tx.Valid() && rx.addr == tx.addr
    }

    function H(): int {
      AddrLen(tx.addr)
    }

    function Gap(): Time {
      DecodeStmin(rx.stmin)
    }
  }

  datatype Sys = Sys(
    tx: Tx,
    rx: Rx,
    data: seq<Bytes>,
    fcs: seq<Bytes>,
    now: Time,
    delivered: seq<Bytes>,
    failed: bool)
  {
    /** Data frames the receiver has taken. */
    function Taken(): int {
      tx.sent - |data|
    }
  }

  datatype Move = PollTx | TakeData | TakeFc | CheckRx | Tick(d: Time)

  predicate WellFormed(c: Link, s: Sys) {
    s.tx.Inv() && s.rx.Inv(c.rx.bs)
  }

  function Init(c: Link): Sys
    requires c.Valid()
  {
    Sys(TxInit(c.tx), Idle, [], [], 0, [], false)
  }

  function Apply(c: Link, s: Sys, m: Move): (s': Sys)
    requires WellFormed(c, s)
    ensures WellFormed(c, s')
  {
    match m
    case PollTx =>
      var r := TxNext(s.tx, s.now);
      (match r.res
       case Err(_) => s.(failed := true)
       case Ok(Send(f)) => s.(tx := r.tx, data := s.data + [f])
       case Ok(_) => s)
    case TakeData =>
      if s.data == [] then s
      else
        var r := RxOnFrame(c.rx, s.rx, s.data[0], s.now);
        var next := s.(rx := r.rx, data := s.data[1..]);
        (match r.res
         case Err(_) => next.(failed := true)
         case Ok(SendFc(fc)) => next.(fcs := s.fcs + [fc])
         case Ok(Done(p)) => next.(delivered := s.delivered + [p])
         case Ok(Continue) => next)
    case TakeFc =>
      if s.fcs == [] then s
      else
        var r := TxOnFrame(s.tx, s.fcs[0], s.now);
        s.(tx := r.tx, fcs := s.fcs[1..], failed := s.failed || r.res.Err?)
    case CheckRx => s.(failed := s.failed || CfTimedOut(s.rx, s.now))
    case Tick(d) => s.(now := s.now + d)
  }

  /** No deadline has passed. */
  predicate Timely(s: Sys) {
    (s.tx.phase.AwaitFc? ==> s.now < s.tx.phase.deadline) && !CfTimedOut(s.rx, s.now)
  }

  function Play(c: Link, s: Sys, ms: seq<Move>): (s': Sys)
    requires WellFormed(c, s)
    ensures WellFormed(c, s')
    decreases |ms|
  {
    if ms == [] then s else Play(c, Apply(c, s, ms[0]), ms[1..])
  }

  predicate TimelyRun(c: Link, s: Sys, ms: seq<Move>)
    requires WellFormed(c, s)
    decreases |ms|
  {
    Timely(s) && (ms == [] || TimelyRun(c, Apply(c, s, ms[0]), ms[1..]))
  }

  predicate Complete(s: Sys) {
    s.tx.phase.Finished? && s.data == []
  }

  // ---- the coupling invariant -----------------------------------------------

  /** The receiver's state after `r` frames. */
  predicate Held(c: Link, rx: Rx, delivered: seq<Bytes>, r: int)
    requires c.Valid()
  {
    if r == 0 then rx == Idle && delivered == []
    else if r < c.tx.Total() then
      && delivered == []
      && rx.Receiving? && rx.dl == |c.tx.payload| && rx.cfs == r - 1
      && Offset(r, c.H()) < |c.tx.payload|
      && rx.buf == c.tx.payload[..Offset(r, c.H())]
    else rx == Idle && delivered == [c.tx.payload]
  }

  /** Sequence and byte counts: what the receiver holds, plus what is in flight, is what was sent. */
  predicate InStep(c: Link, s: Sys)
    requires c.Valid()
  {
    var r, n := s.Taken(), |c.tx.payload|;
    && s.tx.cfg == c.tx && s.tx.Inv() && s.rx.Inv(c.rx.bs) && !s.failed
    && 0 <= r
    && s.data == Segment(c.tx.payload, c.tx.padding, c.tx.addr)[r..s.tx.sent]
    && Held(c, s.rx, s.delivered, r)
  }

  /** Index of the first frame of the block being sent: what was sent before the last grant was. */
  function BlockBase(t: Tx): int {
    if t.phase.Finished? then t.sent - 1 - t.block else t.sent - t.block
  }

  /** Flow control: one grant at most in flight, and only while the sender waits and nothing else is. */
  predicate Granting(c: Link, s: Sys)
    requires c.Valid()
  {
    var t, r := s.tx, s.Taken();
    && (s.fcs != [] ==> s.fcs == [c.rx.Fc()] && t.phase.AwaitFc? && s.data == [] && s.rx.Receiving? && s.rx.block == 0)
    && (t.phase.AwaitFc? && s.fcs == [] ==> s.data != [])
    && (t.phase.AwaitFc? && t.block == 0 ==> t.sent == 1)
    && (t.phase.Consecutive? || (t.phase.Finished? && c.tx.Total() > 1) || (t.phase.AwaitFc? && t.block > 0) ==>
          && t.bs == c.rx.bs && t.gap == c.Gap()
          && 1 <= BlockBase(t) <= r
          && (t.phase.Finished? && t.bs != 0 ==> t.block < t.bs)
          && (s.rx.Receiving? && s.fcs == [] ==> s.rx.block == r - BlockBase(t)))
  }

  /** Pacing never asks for a moment later than the receiver's own deadline allows for. */
  predicate Paced(c: Link, s: Sys) {
    s.tx.phase.Consecutive? ==>
      && (s.tx.block == 0 ==> s.tx.phase.earliest <= s.now)
      && s.tx.phase.earliest <= s.now + s.tx.gap
      && (s.data == [] && s.rx.Receiving? && s.tx.phase.earliest > s.now ==>
            s.tx.phase.earliest + c.rx.nCr <= s.rx.deadline + s.tx.gap)
  }

  predicate Coupled(c: Link, s: Sys)
    requires c.Valid()
  {
    InStep(c, s) && Granting(c, s) && Paced(c, s)
  }

  lemma FcReadsBack(bs: byte, stmin: byte, padding: Option<byte>, addr: Addr)
    ensures ParseFc(addr, FlowControl(bs, stmin, padding, addr)) == Cts(bs, stmin)
  {
  }

  /** The receiver on the next frame of the transfer. */
  lemma NextTaken(c: Link, rx: Rx, r: nat, now: Time)
    requires c.Valid() && r < c.tx.Total() && rx.Inv(c.rx.bs) && Held(c, rx, [], r)
    ensures var step := RxOnFrame(c.rx, rx, c.tx.Frame(r), now);
            if r + 1 == c.tx.Total() then step == RxStep(Idle, Ok(Done(c.tx.payload)))
            else
              && step.rx.Receiving? && step.rx.deadline == now + c.rx.nCr
              && Held(c, step.rx, [], r + 1)
              && if r == 0 || (c.rx.bs != 0 && rx.block + 1 >= c.rx.bs)
                 then step.rx.block == 0 && step.res == Ok(SendFc(c.rx.Fc()))
                 else step.rx.block == rx.block + 1 && step.res == Ok(Continue)
  {
    var payload, n, h := c.tx.payload, |c.tx.payload|, c.H();
    FrameReadsBack(payload, c.tx.padding, c.tx.addr, r);
    if n > 7 - h {
      FrameCountIsExact(n, h);
      OffsetMonotone(r + 1, c.tx.Total(), h);
      if r + 1 < c.tx.Total() {
        OffsetMonotone(r + 1, c.tx.Total() - 1, h);
      }
      if r > 0 {
        var p := Parse(c.tx.addr, c.tx.Frame(r));
        ExtendPrefix(payload, h, r, p.data);
        assert Mod16(r) == Mod16(rx.cfs + 1);
        assert r + 1 == c.tx.Total() ==> Cut(rx.buf + p.data, n) == payload;
      }
    }
  }

  lemma NextInFlight(c: Link, r: int, k: int)
    requires c.Valid() && 0 <= r <= k < c.tx.Total()
    ensures var fs := Segment(c.tx.payload, c.tx.padding, c.tx.addr);
            fs[r..k] + [c.tx.Frame(k)] == fs[r..k + 1]
  {
    SliceNext(Segment(c.tx.payload, c.tx.padding, c.tx.addr), r, k);
  }

  lemma PollInStep(c: Link, s: Sys)
    requires c.Valid() && InStep(c, s) && Timely(s)
    ensures InStep(c, Apply(c, s, PollTx))
  {
    hide FrameAt, FrameCount, Segment, Held, DecodeStmin;
    var r := TxNext(s.tx, s.now);
    if r.tx != s.tx {
      assert r.res == Ok(Send(c.tx.Frame(s.tx.sent)));
      NextInFlight(c, s.Taken(), s.tx.sent);
    }
  }

  lemma PollGrants(c: Link, s: Sys)
    requires c.Valid() && Coupled(c, s) && Timely(s)
    ensures Granting(c, Apply(c, s, PollTx)) && Paced(c, Apply(c, s, PollTx))
  {
    hide FrameAt, FrameCount, Segment, Held, DecodeStmin, FlowControl;
  }

  lemma PollKeeps(c: Link, s: Sys)
    requires c.Valid() && Coupled(c, s) && Timely(s)
    ensures Coupled(c, Apply(c, s, PollTx))
  {
    PollInStep(c, s);
    PollGrants(c, s);
  }

  lemma TakeDataKeeps(c: Link, s: Sys)
    requires c.Valid() && Coupled(c, s) && Timely(s) && s.data != []
    ensures Coupled(c, Apply(c, s, TakeData))
  {
    hide FrameAt, RxOnPci, Parse, Offset, FlowControl;
    var r, s' := s.Taken(), Apply(c, s, TakeData);
    var fs := Segment(c.tx.payload, c.tx.padding, c.tx.addr);
    assert s.data[0] == fs[r] == c.tx.Frame(r);
    assert s.data[1..] == fs[r + 1..s.tx.sent];
    NextTaken(c, s.rx, r, s.now);
  }

  lemma TakeFcKeeps(c: Link, s: Sys)
    requires c.Valid() && Coupled(c, s) && Timely(s)
    ensures Coupled(c, Apply(c, s, TakeFc))
  {
    FcReadsBack(c.rx.bs, c.rx.stmin, c.rx.padding, c.rx.addr);
  }

  lemma ApplyKeeps(c: Link, s: Sys, m: Move)
    requires c.Valid() && Coupled(c, s) && Timely(s)
    ensures Coupled(c, Apply(c, s, m))
  {
    hide FrameAt, Segment, TxNext, TxOnFrame, RxOnFrame;
    match m
    case PollTx => PollKeeps(c, s);
    case TakeData =>
      if s.data != [] {
        TakeDataKeeps(c, s);
      }
    case TakeFc => TakeFcKeeps(c, s);
    case CheckRx =>
    case Tick(d) =>
  }

  lemma {:induction false} RunKeeps(c: Link, s: Sys, ms: seq<Move>)
    requires c.Valid() && Coupled(c, s) && TimelyRun(c, s, ms)
    ensures Coupled(c, Play(c, s, ms)) && Timely(Play(c, s, ms))
    decreases |ms|
  {
    if ms != [] {
      ApplyKeeps(c, s, ms[0]);
      RunKeeps(c, Apply(c, s, ms[0]), ms[1..]);
    }
  }

  /**
   End-to-end safety: in every run that misses no deadline nothing ever fails, the
   payload is delivered at most once and unchanged, and exactly when its last frame
   has been taken.
   */
  lemma EndToEnd(c: Link, ms: seq<Move>)
    requires c.Valid() && TimelyRun(c, Init(c), ms)
    ensures var s := Play(c, Init(c), ms);
            && !s.failed
            && s.delivered == (if Complete(s) then [c.tx.payload] else [])
  {
    RunKeeps(c, Init(c), ms);
  }

  /** Flow control is safe: no grant is ever ignored, and the data in flight stays within the block. */
  lemma FlowControlSafe(c: Link, ms: seq<Move>)
    requires c.Valid() && TimelyRun(c, Init(c), ms)
    ensures var s := Play(c, Init(c), ms);
            && |s.fcs| <= 1
            && (s.fcs != [] ==>
                  && s.tx.phase.AwaitFc? && s.data == []
                  && ParseFc(c.tx.addr, s.fcs[0]) == Cts(c.rx.bs, c.rx.stmin))
            && (c.rx.bs != 0 ==> |s.data| <= Max(1, c.rx.bs))
  {
    RunKeeps(c, Init(c), ms);
    FcReadsBack(c.rx.bs, c.rx.stmin, c.rx.padding, c.rx.addr);
  }
}
