/**
 The transmit and receive machines as step functions on values.

 A transmit state counts the frames of `Segment` it has sent, and a receive state
 counts the consecutive frames it has accepted; offsets, sequence numbers and the
 8-bit counters of the implementation (module `IsoTpMachine`) are derived from
 these counts.
 */
module IsoTpSteps {
  import opened Prelude
  import opened IsoTpFrames

  datatype IsoTpError =
    | PayloadTooLong(len: nat)
    | FcTimeout
    | CfTimeout
    | WaitLimit(max: byte)
    | Overflow
    | SequenceError(expected: nat, got: nat)
    | Malformed(why: Why)

  // ---- transmitter ----------------------------------------------------------

  datatype TxAction =
    | Send(frame: Bytes)
    | WaitFc(deadline: Time)
    | WaitUntil(until: Time)
    | TxDone

  datatype TxCfg = TxCfg(payload: Bytes, padding: Option<byte>, addr: Addr, nBs: Time, wftMax: byte) {
    predicate Valid() {
      Sendable(payload)
    }

    function Total(): (n: nat)
      requires Valid()
      ensures n >= 1
    {
      FrameCount(|payload|, AddrLen(addr))
    }

    function Frame(k: nat): Bytes
      requires Valid() && k < Total()
    {
      FrameAt(payload, padding, addr, k)
    }
  }

  datatype TxPhase =
    | Start
    | AwaitFc(deadline: Time)
    | Consecutive(earliest: Time)
    | Finished

  /**
   `sent`: frames sent so far. `bs`, `gap`: granted by the last flow control.
   `block`: consecutive frames sent since then, the one that ends the transfer not
   counted. `waits`: the 8-bit WAIT counter.
   */
  datatype Tx = Tx(cfg: TxCfg, phase: TxPhase, sent: nat, bs: byte, block: nat, gap: Time, waits: byte) {
    predicate Inv() {
      && cfg.Valid()
      && match phase
         case Start => sent == 0 && block == bs == 0
         case AwaitFc(_) => 1 <= sent < cfg.Total() && block == bs
         case Consecutive(_) => 1 <= sent < cfg.Total() && (bs != 0 ==> block < bs)
         case Finished => sent == cfg.Total()
    }
  }

  datatype TxStep = TxStep(tx: Tx, res: Result<TxAction, IsoTpError>)

  function TxInit(cfg: TxCfg): (t: Tx)
    requires cfg.Valid()
    ensures t.Inv()
  {
    Tx(cfg, Start, 0, 0, 0, 0, 0)
  }

  function TxNext(t: Tx, now: Time): (r: TxStep)
    requires t.Inv()
    ensures r.tx.Inv() && r.tx.cfg == t.cfg
    ensures r.res.Ok? && r.res.value.Send?
            <==> (t.phase.Start? || (t.phase.Consecutive? && now >= t.phase.earliest))
    ensures if r.res.Ok? && r.res.value.Send?
            then r.res.value.frame == t.cfg.Frame(t.sent) && r.tx.sent == t.sent + 1
            else r.tx == t
  {
    match t.phase
    case Start =>
      TxStep(t.(sent := 1, phase := if t.cfg.Total() == 1 then Finished else AwaitFc(now + t.cfg.nBs)),
             Ok(Send(t.cfg.Frame(0))))
    case AwaitFc(deadline) =>
      TxStep(t, if now >= deadline then Err(FcTimeout) else Ok(WaitFc(deadline)))
    case Consecutive(earliest) =>
      if now < earliest then TxStep(t, Ok(WaitUntil(earliest)))
      else if t.sent + 1 == t.cfg.Total() then
        TxStep(t.(sent := t.sent + 1, phase := Finished), Ok(Send(t.cfg.Frame(t.sent))))
      else
        TxStep(t.(sent := t.sent + 1,
                  block := t.block + 1,
                  phase := if t.bs != 0 && t.block + 1 >= t.bs then AwaitFc(now + t.cfg.nBs)
                           else Consecutive(now + t.gap)),
               Ok(Send(t.cfg.Frame(t.sent))))
    case Finished =>
      TxStep(t, Ok(TxDone))
  }

  /** A received frame as flow control: `NotFc` is what a waiting transmitter ignores. */
  datatype Fc = NotFc | ShortFc | Cts(bs: byte, stmin: byte) | Wait | Ovflw | Reserved

  function ParseFc(addr: Addr, f: Bytes): Fc {
    var h := AddrLen(addr);
    if addr.Some? && (f == [] || f[0] != addr.value) then NotFc
    else if |f| < h + 1 || f[h] / 16 != 3 then NotFc
    else if |f| < h + 3 then ShortFc
    else
      match f[h] % 16
      case 0 => Cts(f[h + 1], f[h + 2])
      case 1 => Wait
      case 2 => Ovflw
      case _ => Reserved
  }

  datatype TxFed = TxFed(tx: Tx, res: Result<(), IsoTpError>)

  function TxOnFrame(t: Tx, f: Bytes, now: Time): (r: TxFed)
    requires t.Inv()
    ensures r.tx.Inv() && r.tx.cfg == t.cfg && r.tx.sent == t.sent
  {
    if !t.phase.AwaitFc? then TxFed(t, Ok(()))
    else
      match ParseFc(t.cfg.addr, f)
      case NotFc => TxFed(t, Ok(()))
      case ShortFc => TxFed(t, Err(Malformed(ShortFlowControl)))
      case Cts(bs, stmin) =>
        TxFed(t.(bs := bs, gap := DecodeStmin(stmin), block := 0, waits := 0, phase := Consecutive(now)), Ok(()))
      case Wait =>
        var w := WrapInc(t.waits);
        if w > t.cfg.wftMax then TxFed(t.(waits := w), Err(WaitLimit(t.cfg.wftMax)))
        else TxFed(t.(waits := w, phase := AwaitFc(now + t.cfg.nBs)), Ok(()))
      case Ovflw => TxFed(t, Err(Overflow))
      case Reserved => TxFed(t, Err(Malformed(ReservedFlowStatus)))
  }

  // ---- receiver -------------------------------------------------------------

  datatype RxEvent =
    | SendFc(fc: Bytes)
    | Done(payload: Bytes)
    | Continue

  datatype RxCfg = RxCfg(bs: byte, stmin: byte, padding: Option<byte>, nCr: Time, addr: Addr) {
    function Fc(): Bytes {
      FlowControl(bs, stmin, padding, addr)
    }
  }

  /**
   `cfs`: consecutive frames accepted since the first frame. `block`: those accepted
   since the last flow control was sent.
   */
  datatype Rx =
    | Idle
    | Receiving(dl: nat, buf: Bytes, cfs: nat, block: nat, deadline: Time)
  {
    predicate Inv(bs: byte) {
      Receiving? ==> |buf| < dl <= MAX_PAYLOAD && (bs != 0 ==> block < bs)
    }
  }

  datatype RxStep = RxStep(rx: Rx, res: Result<RxEvent, IsoTpError>)

  function Cut(s: Bytes, n: nat): Bytes {
    if |s| <= n then s else s[..n]
  }

  function RxOnPci(cfg: RxCfg, s: Rx, p: Pci, now: Time): RxStep {
    match p
    case Bad(why) => RxStep(s, Err(Malformed(why)))
    case FlowCtl => RxStep(s, Ok(Continue))
    case Single(data) => RxStep(Idle, Ok(Done(data)))
    case First(dl, data) => RxStep(Receiving(dl, data, 0, 0, now + cfg.nCr), Ok(SendFc(cfg.Fc())))
    case Consec(sn, data) =>
      if s.Idle? then RxStep(s, Err(Malformed(NoFirstFrame)))
      else if sn != Mod16(s.cfs + 1) then RxStep(Idle, Err(SequenceError(Mod16(s.cfs + 1), sn)))
      else
        var buf := Cut(s.buf + data, s.dl);
        if |buf| >= s.dl then RxStep(Idle, Ok(Done(buf)))
        else if cfg.bs != 0 && s.block + 1 >= cfg.bs then
          RxStep(Receiving(s.dl, buf, s.cfs + 1, 0, now + cfg.nCr), Ok(SendFc(cfg.Fc())))
        else
          RxStep(Receiving(s.dl, buf, s.cfs + 1, s.block + 1, now + cfg.nCr), Ok(Continue))
  }

  function RxOnFrame(cfg: RxCfg, s: Rx, f: Bytes, now: Time): (r: RxStep)
    requires s.Inv(cfg.bs)
    ensures r.rx.Inv(cfg.bs)
    ensures r.res.Ok? && r.res.value.SendFc? ==> r.res.value.fc == cfg.Fc() && r.rx.Receiving? && r.rx.block == 0
    ensures r.res.Ok? && r.res.value.Done? ==> r.rx.Idle?
  {
    RxOnPci(cfg, s, Parse(cfg.addr, f), now)
  }

  predicate CfTimedOut(s: Rx, now: Time) {
    s.Receiving? && now > s.deadline
  }

  lemma NextSent(cfg: TxCfg, sent: seq<Bytes>)
    requires cfg.Valid() && |sent| < cfg.Total() && sent == Segment(cfg.payload, cfg.padding, cfg.addr)[..|sent|]
    ensures sent + [cfg.Frame(|sent|)] == Segment(cfg.payload, cfg.padding, cfg.addr)[..|sent| + 1]
  {
    hide FrameAt;
    assert Segment(cfg.payload, cfg.padding, cfg.addr)[|sent|] == cfg.Frame(|sent|);
  }
}
