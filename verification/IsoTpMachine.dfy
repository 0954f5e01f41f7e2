/** The two machines as the driver runs them: fields updated in place, 8-bit counters that wrap. */
module IsoTpMachine {
  import opened Prelude
  import opened IsoTpFrames
  import opened IsoTpSteps
  import opened IsoTpRules
  import R = IsoTpReceive

  datatype TxState =
    | SingleFrame
    | FirstFrame
    | AwaitingFc(deadline: Time)
    | SendingCf(earliest: Time)
    | TxFinished

  /** The consecutive frame carrying the payload from `offset` on. */
  function BuildConsecutive(payload: Bytes, padding: Option<byte>, addr: Addr, offset: nat, sn: byte): Bytes
    requires offset <= |payload| && sn < 16
  {
    var chunk := Min(|payload| - offset, 7 - AddrLen(addr));
    Pad(StartFrame(addr) + [0x20 + sn] + payload[offset..offset + chunk], padding)
  }

  function BuildStart(payload: Bytes, padding: Option<byte>, addr: Addr): Bytes
    requires Sendable(payload)
  {
    var n, h := |payload|, AddrLen(addr);
    if n <= 7 - h then Pad(StartFrame(addr) + [n] + payload, padding)
    else StartFrame(addr) + [0x10 + n / 256, n % 256] + payload[..6 - h] // always full, never padded
  }

  /** The machine's own fields, and the frames it sent, are what the abstract state says. */
  ghost predicate Represents(t: Tx, offset: nat, sn: byte, cfs: byte, sent: seq<Bytes>) {
    var n, h := |t.cfg.payload|, AddrLen(t.cfg.addr);
    && t.Inv()
    && t.sent == |sent|
    && sent == Segment(t.cfg.payload, t.cfg.padding, t.cfg.addr)[..|sent|]
    && (t.phase.AwaitFc? || t.phase.Consecutive? ==>
          n > 7 - h && offset == Offset(|sent|, h) && sn == Mod16(|sent|))
    && cfs == Mod256(t.block)
  }

  lemma StartRepresents(t: Tx, now: Time, offset: nat, sn: byte, cfs: byte, sent: seq<Bytes>)
    requires Represents(t, offset, sn, cfs, sent) && t.phase.Start?
    ensures var n, h := |t.cfg.payload|, AddrLen(t.cfg.addr);
            var f := BuildStart(t.cfg.payload, t.cfg.padding, t.cfg.addr);
            var step := TxNext(t, now);
            && step.res == Ok(Send(f))
            && step.tx == t.(sent := 1, phase := if n <= 7 - h then Finished else AwaitFc(now + t.cfg.nBs))
            && Represents(step.tx, if n <= 7 - h then offset else 6 - h, if n <= 7 - h then sn else 1, cfs, sent + [f])
  {
    if |t.cfg.payload| > 7 - AddrLen(t.cfg.addr) {
      FrameCountIsExact(|t.cfg.payload|, AddrLen(t.cfg.addr));
    }
    NextSent(t.cfg, sent);
  }

  lemma LastFrameReachesEnd(n: nat, h: int, k: nat)
    requires 0 <= h <= 1 && n > 7 - h && 1 <= k < FrameCount(n, h)
    ensures Offset(k, h) < n
    ensures k + 1 == FrameCount(n, h) <==> Offset(k + 1, h) >= n
    ensures Offset(k + 1, h) == Offset(k, h) + 7 - h
  {
    FrameCountIsExact(n, h);
    OffsetMonotone(k, FrameCount(n, h) - 1, h);
    if k + 1 < FrameCount(n, h) {
      OffsetMonotone(k + 1, FrameCount(n, h) - 1, h);
    }
  }

  /** The wrapped counters follow the true counts, and the block test never sees a wrapped one. */
  lemma CountersInStep(k: nat, sn: byte, block: nat, cfs: byte, bs: byte)
    requires sn == Mod16(k) && cfs == Mod256(block) && (bs != 0 ==> block < bs)
    ensures Mod16(sn + 1) == Mod16(k + 1)
    ensures WrapInc(cfs) == Mod256(block + 1)
    ensures bs != 0 ==> WrapInc(cfs) == block + 1
    ensures Mod256(0) == 0 && Mod16(1) == 1
  {
    Mod16Next(k);
    Mod256Next(block);
    Mod256Next(block + 1);
  }

  lemma BuildsFrame(cfg: TxCfg, k: nat, offset: nat, sn: byte)
    requires cfg.Valid() && |cfg.payload| > 7 - AddrLen(cfg.addr) && 1 <= k < cfg.Total()
    requires offset == Offset(k, AddrLen(cfg.addr)) <= |cfg.payload| && sn == Mod16(k) < 16
    ensures BuildConsecutive(cfg.payload, cfg.padding, cfg.addr, offset, sn) == cfg.Frame(k)
  {
    LastFrameReachesEnd(|cfg.payload|, AddrLen(cfg.addr), k);
    hide FrameCount, Mod16, Pad;
  }

  /** The frame built at `offset` with sequence number `sn` is the next one of the segmentation. */
  lemma ConsecutiveRepresents(t: Tx, now: Time, offset: nat, sn: byte, cfs: byte, sent: seq<Bytes>)
    requires Represents(t, offset, sn, cfs, sent) && t.phase.Consecutive? && now >= t.phase.earliest
    ensures var n, h := |t.cfg.payload|, AddrLen(t.cfg.addr);
            var chunk := Min(n - offset, 7 - h);
            && 0 <= chunk && offset + chunk <= n && sn < 16
            && var f := BuildConsecutive(t.cfg.payload, t.cfg.padding, t.cfg.addr, offset, sn);
               var step, last := TxNext(t, now), offset + chunk >= n;
               var counted := if last then cfs else WrapInc(cfs);
               && step.res == Ok(Send(f))
               && step.tx == t.(sent := t.sent + 1,
                                block := if last then t.block else t.block + 1,
                                phase := if last then Finished
                                         else if t.bs != 0 && counted >= t.bs then AwaitFc(now + t.cfg.nBs)
                                         else Consecutive(now + t.gap))
               && Represents(step.tx, offset + chunk, Mod16(sn + 1), counted, sent + [f])
  {
    var n, h := |t.cfg.payload|, AddrLen(t.cfg.addr);
    LastFrameReachesEnd(n, h, |sent|);
    CountersInStep(|sent|, sn, t.block, cfs, t.bs);
    NextSent(t.cfg, sent);
    var chunk := Min(n - offset, 7 - h);
    BuildsFrame(t.cfg, |sent|, offset, sn);
    hide BuildConsecutive, FrameAt, Offset, FrameCount, Mod16, Mod256, WrapInc, Segment;
  }

  class TxMachine {
    const payload: Bytes
    var offset: nat
    var sn: byte
    var bs: byte
    var cfsSinceFc: byte
    var stmin: Time
    var waitCount: byte
    const wftMax: byte
    const nBs: Time
    const padding: Option<byte>
    const addr: Addr
    var state: TxState

    /** Every frame sent, in order. */
    ghost var sent: seq<Bytes>
    /** The true number of consecutive frames `cfsSinceFc` counts modulo 256. */
    ghost var block: nat

    ghost function Abs(): Tx
      reads this
    {
      Tx(TxCfg(payload, padding, addr, nBs, wftMax),
         match state
         case SingleFrame => Start
         case FirstFrame => Start
         case AwaitingFc(d) => AwaitFc(d)
         case SendingCf(e) => Consecutive(e)
         case TxFinished => Finished,
         |sent|, bs, block, stmin, waitCount)
    }

    ghost predicate Valid()
      reads this
    {
      && Represents(Abs(), offset, sn, cfsSinceFc, sent)
      && (state.SingleFrame? ==> |payload| <= 7 - AddrLen(addr))
      && (state.FirstFrame? ==> |payload| > 7 - AddrLen(addr))
    }

    constructor (payload: Bytes, padding: Option<byte>, nBs: Time, wftMax: byte, addr: Addr)
      requires Sendable(payload)
      ensures Valid() && Abs() == TxInit(TxCfg(payload, padding, addr, nBs, wftMax))
    {
      this.payload, this.padding, this.addr, this.nBs, this.wftMax := payload, padding, addr, nBs, wftMax;
      offset, sn, bs, cfsSinceFc, stmin, waitCount := 0, 0, 0, 0, 0, 0;
      var sfMax := 7 - AddrLen(addr);
      state := if |payload| <= sfMax then SingleFrame else FirstFrame;
      sent, block := [], 0;
    }

    /** Refuses the payloads ISO-TP cannot carry, and no others. */
    static method WithAddr(payload: Bytes, padding: Option<byte>, nBs: Time, wftMax: byte, addr: Addr)
      returns (r: Result<TxMachine, IsoTpError>)
      ensures r.Ok? <==> Sendable(payload)
      ensures r.Err? ==> r.error == if payload == [] then Malformed(EmptyPayload) else PayloadTooLong(|payload|)
      ensures r.Ok? ==> fresh(r.value) && r.value.Valid()
                        && r.value.Abs() == TxInit(TxCfg(payload, padding, addr, nBs, wftMax))
    {
      if payload == [] {
        return Err(Malformed(EmptyPayload));
      }
      if |payload| > MAX_PAYLOAD {
        return Err(PayloadTooLong(|payload|));
      }
      var m := new TxMachine(payload, padding, nBs, wftMax, addr);
      return Ok(m);
    }

    method Next(now: Time) returns (r: Result<TxAction, IsoTpError>)
      requires Valid()
      modifies this
      ensures Valid()
      ensures TxStep(Abs(), r) == TxNext(old(Abs()), now)
      ensures sent == old(sent) + if r.Ok? && r.value.Send? then [r.value.frame] else []
    {
      match state
      case SingleFrame =>
        StartRepresents(Abs(), now, offset, sn, cfsSinceFc, sent);
        hide Represents, FrameAt, FrameCount, BuildStart;
        var f := BuildStart(payload, padding, addr);
        state := TxFinished;
        r := Ok(Send(f));
        sent := sent + [f];
      case FirstFrame =>
        StartRepresents(Abs(), now, offset, sn, cfsSinceFc, sent);
        hide Represents, FrameAt, FrameCount, BuildStart;
        var f := BuildStart(payload, padding, addr);
        offset, sn := 6 - AddrLen(addr), 1;
        state := AwaitingFc(now + nBs);
        r := Ok(Send(f));
        sent := sent + [f];
      case AwaitingFc(deadline) =>
        r := if now >= deadline then Err(FcTimeout) else Ok(WaitFc(deadline));
      case SendingCf(earliest) =>
        if now < earliest {
          return Ok(WaitUntil(earliest));
        }
        r := SendConsecutive(now);
      case TxFinished =>
        r := Ok(TxDone);
    }

    method SendConsecutive(now: Time) returns (r: Result<TxAction, IsoTpError>)
      requires Valid() && state.SendingCf? && now >= state.earliest
      modifies this
      ensures Valid()
      ensures TxStep(Abs(), r) == TxNext(old(Abs()), now)
      ensures r.Ok? && r.value.Send? && sent == old(sent) + [r.value.frame]
    {
      hide Represents, FrameAt, FrameCount, Segment, Mod16, WrapInc, TxNext, BuildConsecutive, Sendable, Offset, Pad;
      ConsecutiveRepresents(Abs(), now, offset, sn, cfsSinceFc, sent);
      var f := BuildConsecutive(payload, padding, addr, offset, sn);
      offset, sn, sent := offset + Min(|payload| - offset, 7 - AddrLen(addr)), Mod16(sn + 1), sent + [f];
      if offset >= |payload| {
        state := TxFinished;
      } else {
        var counted := WrapInc(cfsSinceFc);
        cfsSinceFc, block, state := counted, block + 1,
        if bs != 0 && counted >= bs then AwaitingFc(now + nBs) else SendingCf(now + stmin);
      }
      r := Ok(Send(f));
    }

    method OnFrame(data: Bytes, now: Time) returns (r: Result<(), IsoTpError>)
      requires Valid()
      modifies this
      ensures Valid()
      ensures TxFed(Abs(), r) == TxOnFrame(old(Abs()), data, now)
      ensures sent == old(sent)
      ensures var waiting, whole := old(state.AwaitingFc?), Whole(addr, data);
              && (r == Err(Overflow) <==> waiting && whole && HasStatus(addr, data, 2))
              && (r == Err(Malformed(ReservedFlowStatus))
                  <==> waiting && whole && exists status :: 3 <= status && HasStatus(addr, data, status))
              && (r == Err(Malformed(ShortFlowControl))
                  <==> waiting && !whole && exists status :: HasStatus(addr, data, status))
              && (r.Err? ==> Abs() == old(Abs()).(waits := waitCount))
              && (waiting && state.SendingCf? <==> waiting && whole && HasStatus(addr, data, 0))
    {
      hide FrameAt, FrameCount, Segment, DecodeStmin, Offset, Pad, HasStatus, Whole;
      FcByBytes(addr, data);
      if !state.AwaitingFc? {
        return Ok(());
      }
      var h := AddrLen(addr);
      if addr.Some? && (data == [] || data[0] != addr.value) {
        return Ok(());
      }
      if |data| < h + 1 || data[h] / 16 != 3 {
        return Ok(());
      }
      if |data| < h + 3 {
        return Err(Malformed(ShortFlowControl));
      }
      match data[h] % 16
      case 0 =>
        bs := data[h + 1];
        stmin := DecodeStmin(data[h + 2]);
        cfsSinceFc, block := 0, 0;
        waitCount := 0;
        state := SendingCf(now);
        return Ok(());
      case 1 =>
        waitCount := WrapInc(waitCount);
        if waitCount > wftMax {
          return Err(WaitLimit(wftMax));
        }
        state := AwaitingFc(now + nBs);
        return Ok(());
      case 2 =>
        return Err(Overflow);
      case _ =>
        return Err(Malformed(ReservedFlowStatus));
    }
  }

  datatype RxState =
    | RxIdle
    | InTransfer(expectedSn: byte, cfsSinceFc: byte, deadline: Time)

  /** Taking no more than is needed of a frame is cutting the whole at FF_DL. */
  lemma TakeIsCut(buf: Bytes, data: Bytes, h: int, dl: nat)
    requires 0 <= h <= 1 && data != [] && |buf| < dl
    ensures var take := Min(Min(dl - |buf|, 7 - h), |data| - 1);
            buf + data[1..1 + take] == Cut(buf + data[1..1 + Min(7 - h, |data| - 1)], dl)
  {
    var take := Min(Min(dl - |buf|, 7 - h), |data| - 1);
    var chunk := data[1..1 + Min(7 - h, |data| - 1)];
    assert data[1..1 + take] == chunk[..take];
    assert (buf + chunk)[..|buf| + take] == buf + chunk[..take];
  }

  class RxMachine {
    var buf: Bytes
    var ffDl: nat
    const rxBs: byte
    const rxStmin: byte
    const padding: Option<byte>
    const nCr: Time
    const addr: Addr
    var state: RxState

    /** The true counts behind `expectedSn` (mod 16) and `cfsSinceFc` (mod 256). */
    ghost var cfs: nat
    ghost var block: nat
    /** Every frame it was given. */
    ghost var fed: seq<R.Arrival>

    ghost function Cfg(): RxCfg {
      RxCfg(rxBs, rxStmin, padding, nCr, addr)
    }

    ghost function Abs(): Rx
      reads this
    {
      match state
      case RxIdle => Idle
      case InTransfer(_, _, deadline) => Receiving(ffDl, buf, cfs, block, deadline)
    }

    ghost predicate Coherent()
      reads this
    {
      && Abs().Inv(rxBs)
      && (state.InTransfer? ==> state.expectedSn == Mod16(cfs + 1) && state.cfsSinceFc == Mod256(block))
    }

    ghost predicate Valid()
      reads this
    {
      Coherent() && Abs() == R.After(Cfg(), fed)
    }

    constructor (rxBs: byte, rxStmin: byte, padding: Option<byte>, nCr: Time, addr: Addr)
      ensures Valid() && Abs() == Idle && fed == []
      ensures Cfg() == RxCfg(rxBs, rxStmin, padding, nCr, addr)
    {
      this.rxBs, this.rxStmin, this.padding, this.nCr, this.addr := rxBs, rxStmin, padding, nCr, addr;
      buf, ffDl, state := [], 0, RxIdle;
      cfs, block, fed := 0, 0, [];
    }

    /** An error exactly when a transfer is under way and more than N_Cr has passed since its last frame. */
    method CheckTimeout(now: Time) returns (r: Result<(), IsoTpError>)
      requires Valid()
      ensures r == Ok(()) || r == Err(CfTimeout)
      ensures r.Err? <==> CfTimedOut(Abs(), now)
      ensures r.Err? <==> R.MidTransfer(R.Heard(addr, fed)) && now > R.LastHeardAt(addr, fed) + nCr
    {
      hide R.After, R.MidTransfer, R.Heard, R.LastHeardAt;
      R.CfTimeoutExact(Cfg(), fed, now);
      if state.InTransfer? && now > state.deadline {
        return Err(CfTimeout);
      }
      return Ok(());
    }

    method OnFrame(f: Bytes, now: Time) returns (r: Result<RxEvent, IsoTpError>)
      requires Valid()
      modifies this
      ensures Valid() && fed == old(fed) + [R.Arrival(f, now)]
      ensures RxStep(Abs(), r) == RxOnFrame(Cfg(), old(Abs()), f, now) == R.Outcome(Cfg(), fed)
    {
      hide RxOnPci, Parse, Mod16, Mod256;
      assert (fed + [R.Arrival(f, now)])[..|fed|] == fed;
      r := Take(f, now);
      fed := fed + [R.Arrival(f, now)];
    }

    method Take(f: Bytes, now: Time) returns (r: Result<RxEvent, IsoTpError>)
      requires Coherent()
      modifies this`buf, this`ffDl, this`state, this`cfs, this`block
      ensures Coherent()
      ensures RxStep(Abs(), r) == RxOnFrame(Cfg(), old(Abs()), f, now)
    {
      hide FlowControl;
      if f == [] {
        return Err(Malformed(EmptyFrame));
      }
      var h := AddrLen(addr);
      if addr.Some? && f[0] != addr.value {
        return Err(Malformed(AddressMismatch));
      }
      if |f| < h + 1 {
        return Err(Malformed(TooShortForAddress));
      }
      var data := f[h..];
      match data[0] / 16
      case 0 =>
        var len := data[0] % 16;
        if len == 0 || 1 + len > |data| {
          return Err(Malformed(BadSingleFrameLength));
        }
        state := RxIdle;
        return Ok(Done(data[1..1 + len]));
      case 1 =>
        if |data| < 8 - h {
          return Err(Malformed(ShortFirstFrame));
        }
        var dl: int := (data[0] as int % 16) * 256 + data[1] as int;
        if dl <= 7 - h {
          return Err(Malformed(FitsInSingleFrame));
        }
        ffDl := dl;
        buf := data[2..8 - h];
        state := InTransfer(1, 0, now + nCr);
        cfs, block := 0, 0;
        return Ok(SendFc(FlowControl(rxBs, rxStmin, padding, addr)));
      case 2 =>
        r := OnConsecutive(data, now);
        assert Parse(addr, f) == Consec(data[0] % 16, data[1..1 + Min(7 - h, |data| - 1)]);
      case 3 =>
        return Ok(Continue);
      case _ =>
        return Err(Malformed(UnknownPci));
    }

    method OnConsecutive(data: Bytes, now: Time) returns (r: Result<RxEvent, IsoTpError>)
      requires Coherent() && data != []
      modifies this`buf, this`state, this`cfs, this`block
      ensures Coherent()
      ensures RxStep(Abs(), r)
           == RxOnPci(Cfg(), old(Abs()), Consec(data[0] % 16, data[1..1 + Min(7 - AddrLen(addr), |data| - 1)]), now)
    {
      hide FlowControl, Cut, Mod16, Mod256, WrapInc;
      if state.RxIdle? {
        return Err(Malformed(NoFirstFrame));
      }
      CountersInStep(cfs + 1, state.expectedSn, block, state.cfsSinceFc, rxBs);
      var h := AddrLen(addr);
      var sn := data[0] % 16;
      if sn != state.expectedSn {
        var expected := state.expectedSn;
        state := RxIdle;
        return Err(SequenceError(expected, sn));
      }
      var need := ffDl - |buf|;
      var take := Min(Min(need, 7 - h), |data| - 1);
      TakeIsCut(buf, data, h, ffDl);
      buf := buf + data[1..1 + take];
      if |buf| >= ffDl {
        state := RxIdle;
        var out := buf;
        buf := [];
        assert out[..ffDl] == out;
        return Ok(Done(out[..ffDl]));
      }
      var counted := WrapInc(state.cfsSinceFc);
      cfs, block := cfs + 1, block + 1;
      if rxBs != 0 && counted >= rxBs {
        block := 0;
        state := InTransfer(Mod16(sn + 1), 0, now + nCr);
        return Ok(SendFc(FlowControl(rxBs, rxStmin, padding, addr)));
      }
      state := InTransfer(Mod16(sn + 1), counted, now + nCr);
      return Ok(Continue);
    }
  }
}
